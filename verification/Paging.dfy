/** The page-map builder, copier, cleaner and fault handler of kernel/memory/paging.cpp,
    over a physical memory of frames handed out by the first-fit allocator. */
module Paging {
  import opened Common
  import opened PageMapEntry
  import opened PageTree
  import opened PageClean
  import opened Isolation
  import opened FlatMemory
  import MM = MemoryManager

  datatype Error = Success | NoEnoughMemory | AlreadyAllocated | IndexOutOfRange

  /** Each application's root table is its task's cr3; each cached image is a template. */
  ghost predicate RootsOk(ram: Ram, tree: Tree, kinds: Kinds, base: set<nat>, tasks: map<nat, TaskMemory>,
                          appLoads: map<nat, nat>, cr3: nat, kernelRoot: nat)
  {
    && kernelRoot in base && kernelRoot < |ram| && (cr3 == kernelRoot || cr3 in tree.Values) && cr3 < |ram|
    && (forall s :: s in tasks ==> TaskOk(tree, kinds, s, tasks[s]))
    && (forall t :: t in appLoads ==> LoadOk(tree, kinds, t, appLoads[t]))
  }

  ghost predicate TaskOk(tree: Tree, kinds: Kinds, s: nat, t: TaskMemory) {
    s in kinds && kinds[s].App? && Root(s) in tree && t.cr3 == tree[Root(s)] && AreasOk(t)
  }

  ghost predicate LoadOk(tree: Tree, kinds: Kinds, t: nat, pml4: nat) {
    t in kinds && kinds[t].Template? && Root(t) in tree && pml4 == tree[Root(t)]
  }

  /** What a page shows to the application: its frame, or what it will come up with. */
  ghost function PageShown(ram: Ram, tree: Tree, s: nat, t: TaskMemory, files: Files, q: nat): Option<Frame> {
    if View(ram, tree, s, q).Some? then View(ram, tree, s, q) else Served(t, files, q)
  }

  /** A system call's store of this word to page q of s changes what others see. */
  ghost predicate WouldSpoil(ram: Ram, tree: Tree, s: nat, q: nat, k: Index, w: Word) {
    Shared(ram, tree, s, q) && View(ram, tree, s, q).Some? && View(ram, tree, s, q).value[k] != w
  }

  class Machine {
    const memoryManager: MM.BitmapMemoryManager
    var ram: Ram
    /** The frame of the root table in use. */
    var cr3: nat
    var tasks: map<nat, TaskMemory>
    var files: Files
    /** The root tables of the cached application images. */
    var appLoads: map<nat, nat>
    const kernelRoot: nat

    /** Which frame holds which node of which address space. */
    ghost var tree: Tree
    var kinds: Kinds
    /** Allocated frames that belong to no address space. */
    ghost var base: set<nat>

    ghost predicate Allocator()
      reads this`ram, memoryManager, memoryManager.allocMap
    {
      && memoryManager.Valid()
      && |ram| == MM.FRAME_COUNT
    }

    /** No frame of the managed range is free. */
    ghost predicate Full()
      reads memoryManager`used, memoryManager`rangeBegin, memoryManager`rangeEnd
    {
      forall f: nat :: memoryManager.rangeBegin <= f < memoryManager.rangeEnd ==> f in memoryManager.used
    }

    /** The allocated frames are exactly the kernel's and, once each, the nodes'. */
    ghost predicate Accounted()
      reads this`tree, this`base, memoryManager`used
    {
      && memoryManager.used == base + tree.Values
      && base !! tree.Values
    }

    ghost predicate Valid()
      reads this`ram, this`tree, this`kinds, this`base, memoryManager, memoryManager.allocMap
    {
      Allocator() && Shape(ram, tree, kinds) && Accounted()
    }

    ghost predicate Roots()
      reads this`ram, this`tree, this`kinds, this`base, this`tasks, this`appLoads, this`cr3
    {
      RootsOk(ram, tree, kinds, base, tasks, appLoads, cr3, kernelRoot)
    }

    ghost predicate Inv()
      reads this, memoryManager, memoryManager.allocMap
    {
      Valid() && Separated(ram, tree, kinds) && Roots()
    }

    constructor (mm: MM.BitmapMemoryManager, contents: Ram, root: nat, files: Files)
      requires mm.Valid() && |contents| == MM.FRAME_COUNT && root in mm.used
      ensures Inv() && memoryManager == mm && ram == contents && this.files == files
      ensures tree == map[] && kinds == map[] && base == mm.used
    {
      memoryManager, ram, kernelRoot, cr3 := mm, contents, root, root;
      tasks, appLoads, this.files := map[], map[], files;
      tree, kinds, base := map[], map[], mm.used;
    }

    method NewPageMap() returns (frame: nat, err: Error)
      requires Allocator()
      modifies this`ram, memoryManager`used, memoryManager.allocMap
      ensures Allocator()
      ensures err == Success || err == NoEnoughMemory
      ensures err == Success ==>
        && frame !in old(memoryManager.used) && frame < |ram|
        && memoryManager.used == old(memoryManager.used) + {frame}
        && ram == old(ram)[frame := ram[frame]] && Zeroed(ram[frame])
      ensures err == NoEnoughMemory ==>
        && ram == old(ram) && memoryManager.used == old(memoryManager.used) && Full()
    {
      var r := memoryManager.Allocate(1);
      match r
      case NoEnoughMemory =>
        forall f: nat | memoryManager.rangeBegin <= f < memoryManager.rangeEnd ensures f in memoryManager.used {
          assert !MM.FreeRun(memoryManager.used, f, 1, memoryManager.rangeEnd);
        }
        return 0, NoEnoughMemory;
      case Allocated(f) =>
        assert MM.InRun(f, f, 1);
        assert MM.Frames(f, 1) == {f};
        var zero: Frame := seq(ENTRIES, _ => ZERO_WORD);
        ram := ram[f := zero];
        return f, Success;
    }

    method SetNewPageMapIfNotPresent(table: nat, i: Index) returns (child: nat, err: Error)
      requires Allocator() && table < |ram| && table in memoryManager.used
      modifies this`ram, memoryManager`used, memoryManager.allocMap
      ensures Allocator()
      ensures err == Success || err == NoEnoughMemory
      ensures old(ram)[table][i].present ==>
        && err == Success && child == ram[table][i].addr
        && ram == old(ram) && memoryManager.used == old(memoryManager.used)
      ensures !old(ram)[table][i].present && err == Success ==>
        && child !in old(memoryManager.used) && child < |ram|
        && memoryManager.used == old(memoryManager.used) + {child}
        && |ram| == |old(ram)| && Zeroed(ram[child])
        && ram == SetWord(old(ram)[child := ram[child]], table, i, old(ram)[table][i].(addr := child, present := true))
      ensures err == NoEnoughMemory ==> ram == old(ram) && memoryManager.used == old(memoryManager.used)
      ensures err == NoEnoughMemory ==> Full()
    {
      if ram[table][i].present {
        return ram[table][i].addr, Success;
      }
      child, err := NewPageMap();
      if err != Success {
        return 0, err;
      }
      ghost var cleared := ram;
      ram := SetWord(ram, table, i, ram[table][i].(addr := child));
      ram := SetWord(ram, table, i, ram[table][i].(present := true));
      assert ram[table] == cleared[table][i := ram[table][i]];
      assert ram == SetWord(cleared, table, i, ram[table][i]);
    }

    /** One entry made present, user-accessible and writable as told. */
    method SetEntryBits(table: nat, i: Index, writable: bool) returns (child: nat, err: Error)
      requires Allocator() && table < |ram| && table in memoryManager.used
      modifies this`ram, memoryManager`used, memoryManager.allocMap
      ensures Allocator()
      ensures err == Success || (err == NoEnoughMemory && ram == old(ram) && memoryManager.used == old(memoryManager.used))
      ensures old(ram)[table][i].present && err == Success ==>
        && child == old(ram)[table][i].addr && memoryManager.used == old(memoryManager.used)
        && ram == SetWord(old(ram), table, i, old(ram)[table][i].(user := true, writable := writable))
      ensures !old(ram)[table][i].present && err == Success ==>
        && child !in old(memoryManager.used) && child < |ram| && memoryManager.used == old(memoryManager.used) + {child}
        && |ram| == |old(ram)| && Zeroed(ram[child])
        && ram == SetWord(old(ram)[child := ram[child]], table, i,
                          old(ram)[table][i].(present := true, user := true, writable := writable, addr := child))
      ensures err == NoEnoughMemory ==> Full()
    {
      hide Zeroed;
      child, err := SetNewPageMapIfNotPresent(table, i);
      if err != Success {
        return;
      }
      ghost var cleared := if old(ram)[table][i].present then old(ram) else old(ram)[child := ram[child]];
      ram := SetWord(ram, table, i, ram[table][i].(user := true));
      ram := SetWord(ram, table, i, ram[table][i].(writable := writable));
      assert ram[table] == cleared[table][i := ram[table][i]];
      assert ram == SetWord(cleared, table, i, ram[table][i]);
    }

    /** The same for the entry of page addr in the table of node n. */
    method SetEntryPresent(table: nat, level: nat, addr: LinearAddress4Level, writable: bool, ghost n: Node)
      returns (child: nat, err: Error)
      requires Valid()
      requires 1 <= level <= 4 && addr.Vpn() >= USER_BEGIN && (level > 1 ==> writable)
      requires n == Node(n.space, level, Prefix(addr.Vpn(), level)) && n in tree && tree[n] == table
      modifies this`ram, this`tree, memoryManager`used, memoryManager.allocMap
      ensures Valid()
      ensures err == Success || (err == NoEnoughMemory && ram == old(ram) && tree == old(tree))
      ensures err == Success ==>
        var v := addr.Vpn();
        && Extends(old(ram), old(tree), ram, tree, n.space, level, v, v + 1)
        && (level == 1 ==> SetUp(old(ram), old(tree), ram, tree, n.space, level, v, v + 1, v + 1, writable))
        && (level > 1 ==>
              && LeavesKept(old(ram), old(tree), ram, tree)
              && Node(n.space, level - 1, Prefix(v, level - 1)) in tree
              && tree[Node(n.space, level - 1, Prefix(v, level - 1))] == child)
      ensures err == NoEnoughMemory ==> Full()
    {
      hide Full, Shape, Extends, LeavesKept, PagesSet, Prefix, Zeroed;
      ghost var ram0, tree0, v := ram, tree, addr.Vpn();
      PartOfVpn(addr, level);
      Halves(v);
      PrefixParent(v, level);
      var i := addr.Part(level);
      EntryAt(ram, tree, kinds, n, i);
      assert table in tree.Values;
      child, err := SetEntryBits(table, i, writable);
      if err != Success {
        return;
      }
      if !ram0[table][i].present {
        tree := tree[Child(n, i) := child];
        AttachedValues(tree0, Child(n, i), child);
      }
      assert EntrySet(ram0, tree0, n, v, writable, child, ram, tree);
      EntrySetStep(ram0, tree0, kinds, n, v, writable, child, ram, tree);
      assert Child(n, i) == Node(n.space, level - 1, Prefix(v, level - 1));
    }

    method NextEntry(addr0: LinearAddress4Level, level: nat) returns (addr: LinearAddress4Level)
      requires 1 <= level <= 4 && addr0.Part(level) < 511
      ensures addr.Vpn() == First(Prefix(addr0.Vpn(), level - 1) + 1, level - 1)
    {
      AdvanceAddress(addr0, level);
      addr := addr0.SetPart(level, addr0.Part(level) + 1);
      ghost var stepped := addr;
      var l := level - 1;
      while l >= 1
        invariant 0 <= l < level
        invariant ClearBelow(addr, l + 1) == ClearBelow(stepped, level)
      {
        addr := addr.SetPart(l, 0);
        l := l - 1;
      }
    }

    /** Sets up num0 pages from addr0 as far as they lie under this table, and returns how
        many are left. `done` pages were set, all of them unless memory ran out. */
    method SetupPageMap(table: nat, level: nat, addr0: LinearAddress4Level, num0: nat, writable: bool, ghost s: nat)
      returns (num: nat, err: Error, ghost done: nat)
      requires Valid()
      requires 1 <= level <= 4 && addr0.Vpn() >= USER_BEGIN
      requires Node(s, level, Prefix(addr0.Vpn(), level)) in tree && tree[Node(s, level, Prefix(addr0.Vpn(), level))] == table
      modifies this`ram, this`tree, memoryManager`used, memoryManager.allocMap
      ensures Valid()
      ensures err == Success || err == NoEnoughMemory
      ensures done <= Within(addr0.Vpn(), num0, level)
      ensures SetUp(old(ram), old(tree), ram, tree, s, level, addr0.Vpn(), addr0.Vpn() + done,
                    addr0.Vpn() + Within(addr0.Vpn(), num0, level), writable)
      ensures err == Success ==> done == Within(addr0.Vpn(), num0, level) && num == num0 - done
      ensures err != Success ==> done < Within(addr0.Vpn(), num0, level)
      ensures err == NoEnoughMemory ==> Full()
      decreases level
    {
      hide *;
      var addr := addr0;
      num := num0;
      ghost var v0 := addr0.Vpn();
      ghost var n := Node(s, level, Prefix(v0, level));
      ghost var end := v0 + Within(v0, num0, level);
      done := 0;
      SetUpNothing(ram, tree, s, level, v0, writable);
      WithinNothing(v0, level);
      while num > 0
        invariant Valid() && n in tree && tree[n] == table
        invariant done + num == num0
        invariant SetUp(old(ram), old(tree), ram, tree, s, level, v0, v0 + done, v0 + done, writable)
        invariant num > 0 ==> addr.Vpn() == v0 + done && Prefix(addr.Vpn(), level) == n.prefix
        invariant Within(v0, num0, level) == done + (if num > 0 then Within(v0 + done, num, level) else 0)
      {
        var i := addr.Part(level);
        ghost var v, num1 := addr.Vpn(), num;
        ghost var ram0, tree0 := ram, tree;
        PartOfVpn(addr, level);
        WithinChild(v, num, level);

        var child;
        child, err := SetEntryPresent(table, level, addr, level > 1 || writable, n);
        if err != Success {
          SetUpWidens(old(ram), old(tree), ram, tree, s, level, v0, v, v, end, writable);
          return;
        }
        ghost var ram1, tree1 := ram, tree;
        ghost var done1: nat := 1;
        var rest;
        if level == 1 {
          rest := num - 1;
        } else {
          rest, err, done1 := SetupPageMap(child, level - 1, addr, num, writable, s);
          SetUpNests(ram0, tree0, ram1, tree1, ram, tree, s, level, v, v + done1, v + Within(v, num1, level - 1), writable);
        }
        SetUpJoins(old(ram), old(tree), ram0, tree0, ram, tree, s, level, v0, v, v + done1, v + Within(v, num1, level - 1), writable);
        done := done + done1;
        if err != Success {
          SetUpWidens(old(ram), old(tree), ram, tree, s, level, v0, v0 + done, v + Within(v, num1, level - 1), end, writable);
          return;
        }
        num := rest;
        SetUpKeepsNode(old(ram), old(tree), ram, tree, s, level, v0, v0 + done, v0 + done, writable, n);
        if i == 511 {
          assert done == Within(v0, num0, level);
          break;
        }
        addr := NextEntry(addr, level);
      }
      err := Success;
    }

    /** dest[i] becomes src[i], pointing at a fresh table. */
    method CopyEntryBits(dest: nat, src: nat, i: Index) returns (table: nat, err: Error)
      requires Allocator() && dest < |ram| && src < |ram| && dest in memoryManager.used && src in memoryManager.used
      modifies this`ram, memoryManager`used, memoryManager.allocMap
      ensures Allocator()
      ensures err == Success || (err == NoEnoughMemory && ram == old(ram) && memoryManager.used == old(memoryManager.used))
      ensures err == Success ==>
        && table !in old(memoryManager.used) && table < |ram| && memoryManager.used == old(memoryManager.used) + {table}
        && |ram| == |old(ram)| && Zeroed(ram[table])
        && ram == SetWord(old(ram)[table := ram[table]], dest, i, old(ram)[src][i].(addr := table))
      ensures err == NoEnoughMemory ==> Full()
    {
      hide Zeroed;
      table, err := NewPageMap();
      if err != Success {
        return;
      }
      ghost var cleared := ram;
      ram := SetWord(ram, dest, i, ram[src][i]);
      ram := SetWord(ram, dest, i, ram[dest][i].(addr := table));
      assert ram[dest] == cleared[dest][i := ram[dest][i]];
      assert ram == SetWord(cleared, dest, i, ram[dest][i]);
    }

    /** A fresh table for the copy of one table entry. */
    method CopyTableEntry(dest: nat, src: nat, part: nat, i: Index, ghost d: nat, ghost t: nat, ghost p: nat)
      returns (table: nat, err: Error)
      requires Valid() && 2 <= part <= 4 && UserIndex(part, i)
      requires Node(d, part, p) in tree && tree[Node(d, part, p)] == dest && !ram[dest][i].present
      requires Node(t, part, p) in tree && tree[Node(t, part, p)] == src && ram[src][i].present
      requires USER_BEGIN <= First(p * 512 + i, part - 1) < VPN_COUNT
      modifies this`ram, this`tree, memoryManager`used, memoryManager.allocMap
      ensures Valid()
      ensures err == Success || (err == NoEnoughMemory && ram == old(ram) && tree == old(tree))
      ensures err == Success ==>
        var v := First(p * 512 + i, part - 1);
        && Extends(old(ram), old(tree), ram, tree, d, part, v, v + 1) && LeavesKept(old(ram), old(tree), ram, tree)
        && Node(d, part - 1, p * 512 + i) in tree && tree[Node(d, part - 1, p * 512 + i)] == table
        && table < |ram| && Zeroed(ram[table])
        && |ram| == |old(ram)| && (forall j: Index :: j != i && dest < |ram| ==> ram[dest][j] == old(ram)[dest][j])
        && tree == old(tree)[Node(d, part - 1, p * 512 + i) := table]
      ensures err == NoEnoughMemory ==> Full()
    {
      hide Full, Shape, Extends, LeavesKept, Prefix, First, Zeroed;
      ghost var n := Node(d, part, p);
      ghost var ram0, tree0 := ram, tree;
      EntryAt(ram, tree, kinds, n, i);
      EntryAt(ram, tree, kinds, Node(t, part, p), i);
      assert dest in tree.Values && src in tree.Values;
      table, err := CopyEntryBits(dest, src, i);
      if err != Success {
        return;
      }
      tree := tree[Child(n, i) := table];
      AttachedValues(tree0, Child(n, i), table);
      CopyTableStep(ram0, tree0, kinds, n, i, ram0[src][i].(addr := table), table, ram, tree);
    }

    method CopyLeafEntry(dest: nat, src: nat, i: Index, ghost d: nat, ghost t: nat, ghost p: nat)
      requires Valid() && d in kinds && kinds[d] == App(t)
      requires Node(d, 1, p) in tree && tree[Node(d, 1, p)] == dest && !ram[dest][i].present
      requires Node(t, 1, p) in tree && tree[Node(t, 1, p)] == src && ram[src][i].present
      modifies this`ram
      ensures Valid()
      ensures Copied(old(ram), tree, ram, tree, d, t, 1, p * 512 + i, p * 512 + i + 1, p * 512 + i + 1)
      ensures forall j: Index :: j != i ==> ram[dest][j] == old(ram)[dest][j]
    {
      hide Shape, Copied;
      EntryAt(ram, tree, kinds, Node(d, 1, p), i);
      EntryAt(ram, tree, kinds, Node(t, 1, p), i);
      var e := ram[src][i];
      ram := SetWord(ram, dest, i, e);
      ram := SetWord(ram, dest, i, ram[dest][i].(writable := false));
      assert ram[dest] == old(ram)[dest][i := ram[dest][i]];
      assert ram == SetWord(old(ram), dest, i, ram[dest][i]);
      CopyLeaf(old(ram), tree, kinds, d, t, p, i, e, ram);
    }

    /** Rebuilds, under dest, the tables under src from entry `start` on, and maps the same
        pages read-only. The pages below `upto` were copied, all unless memory ran out. */
    method CopyPageMaps(dest: nat, src: nat, part: nat, start: nat, ghost d: nat, ghost t: nat, ghost p: nat)
      returns (err: Error, ghost upto: nat)
      requires Valid() && 1 <= part <= 4 && start < ENTRIES && UserIndex(part, start)
      requires d in kinds && kinds[d] == App(t)
      requires Node(d, part, p) in tree && tree[Node(d, part, p)] == dest
      requires Node(t, part, p) in tree && tree[Node(t, part, p)] == src
      requires forall i: Index :: i >= start ==> !ram[dest][i].present
      requires USER_BEGIN <= First(p * 512 + start, part - 1) && First(p + 1, part) <= VPN_COUNT
      modifies this`ram, this`tree, memoryManager`used, memoryManager.allocMap
      ensures Valid()
      ensures err == Success || err == NoEnoughMemory
      ensures First(p * 512 + start, part - 1) <= upto <= First(p + 1, part)
      ensures Copied(old(ram), old(tree), ram, tree, d, t, part, First(p * 512 + start, part - 1), upto, First(p + 1, part))
      ensures err == Success ==> upto == First(p + 1, part)
      ensures err == NoEnoughMemory ==> Full()
      ensures Mirrors(old(tree), tree, d, t)
      decreases part, 1
    {
      hide Mirrors, Full, Allocator, Accounted, Shape, Extends, LeavesKept, PagesShared, Copied, Prefix, First, Leaf, EntryOk;
      ghost var n, m := Node(d, part, p), Node(t, part, p);
      ghost var lo, hi := First(p * 512 + start, part - 1), First(p + 1, part);
      KindAt(ram, tree, kinds, d, t);
      ChildRange(p, start, part);
      CopiedNothing(ram, tree, d, t, part, lo);
      MirrorsNothing(tree, d, t);
      EntryAt(ram, tree, kinds, n, start);
      EntryAt(ram, tree, kinds, m, start);
      upto := lo;
      var i := start;
      while i < ENTRIES
        invariant Valid() && start <= i <= ENTRIES && dest < |ram| && src < |ram|
        invariant n in tree && tree[n] == dest && m in tree && tree[m] == src
        invariant forall j: Index :: j >= i ==> !ram[dest][j].present
        invariant lo <= upto <= hi && upto == First(p * 512 + i, part - 1)
        invariant Copied(old(ram), old(tree), ram, tree, d, t, part, lo, upto, upto)
        invariant Mirrors(old(tree), tree, d, t)
      {
        ghost var ram0, tree0, next := ram, tree, First(p * 512 + i + 1, part - 1);
        ChildRange(p, i, part);
        EntryAt(ram, tree, kinds, m, i);
        if !ram[src][i].present {
          CopyAbsent(ram, tree, kinds, d, t, part, p, i);
        } else if part == 1 {
          CopyLeafEntry(dest, src, i, d, t, p);
        } else {
          err, upto := CopySubtree(dest, src, part, i, d, t, p);
          MirrorsTwice(old(tree), tree0, tree, d, t);
          if err != Success {
            CopiedJoins(old(ram), old(tree), ram0, tree0, ram, tree, d, t, part, lo, First(p * 512 + i, part - 1), upto, next);
            CopiedWidens(old(ram), old(tree), ram, tree, d, t, part, lo, upto, next, hi);
            return;
          }
        }
        CopiedJoins(old(ram), old(tree), ram0, tree0, ram, tree, d, t, part, lo, First(p * 512 + i, part - 1), next, next);
        CopiedKeepsNode(ram0, tree0, ram, tree, d, t, part, First(p * 512 + i, part - 1), next, next, n);
        CopiedKeepsNode(ram0, tree0, ram, tree, d, t, part, First(p * 512 + i, part - 1), next, next, m);
        upto := next;
        i := i + 1;
      }
      err := Success;
    }

    /** One present table entry: a fresh table, and everything below it. */
    method CopySubtree(dest: nat, src: nat, part: nat, i: Index, ghost d: nat, ghost t: nat, ghost p: nat)
      returns (err: Error, ghost upto: nat)
      requires Valid() && 2 <= part <= 4 && UserIndex(part, i)
      requires d in kinds && kinds[d] == App(t)
      requires Node(d, part, p) in tree && tree[Node(d, part, p)] == dest && !ram[dest][i].present
      requires Node(t, part, p) in tree && tree[Node(t, part, p)] == src && ram[src][i].present
      requires USER_BEGIN <= First(p * 512 + i, part - 1) && First(p * 512 + i + 1, part - 1) <= VPN_COUNT
      modifies this`ram, this`tree, memoryManager`used, memoryManager.allocMap
      ensures Valid()
      ensures err == Success || err == NoEnoughMemory
      ensures First(p * 512 + i, part - 1) <= upto <= First(p * 512 + i + 1, part - 1)
      ensures Copied(old(ram), old(tree), ram, tree, d, t, part, First(p * 512 + i, part - 1), upto, First(p * 512 + i + 1, part - 1))
      ensures err == Success ==> upto == First(p * 512 + i + 1, part - 1)
      ensures |ram| == |old(ram)| && forall j: Index :: j != i && dest < |ram| ==> ram[dest][j] == old(ram)[dest][j]
      ensures err == NoEnoughMemory ==> Full()
      ensures Mirrors(old(tree), tree, d, t)
      decreases part, 0
    {
      hide Mirrors, Full, Allocator, Accounted, Shape, Extends, LeavesKept, PagesShared, Copied, Prefix, First, Leaf;
      KindAt(ram, tree, kinds, d, t);
      ghost var lo, hi := First(p * 512 + i, part - 1), First(p * 512 + i + 1, part - 1);
      ChildRange(p, i, part);
      EntryAt(ram, tree, kinds, Node(t, part, p), i);
      var table;
      table, err := CopyTableEntry(dest, src, part, i, d, t, p);
      if err != Success {
        upto := lo;
        MirrorsNothing(tree, d, t);
        CopiedNothing(ram, tree, d, t, part, lo);
        CopiedWidens(ram, tree, ram, tree, d, t, part, lo, lo, lo, hi);
        return;
      }
      ghost var ram1, tree1 := ram, tree;
      MirrorsOne(old(ram), old(tree), ram, tree, d, t, part, lo, lo + 1, part - 1, p * 512 + i, table);
      ExtendsKeepsNode(old(ram), old(tree), ram, tree, d, part, lo, lo + 1, Node(t, part, p));
      ExtendsKeepsNode(old(ram), old(tree), ram, tree, d, part, lo, lo + 1, Node(d, part, p));
      ExtendsKeepsNode(old(ram), old(tree), ram, tree, d, part, lo, lo + 1, Node(t, part - 1, p * 512 + i));
      err, upto := CopyPageMaps(table, ram[src][i].addr, part - 1, 0, d, t, p * 512 + i);
      MirrorsTwice(old(tree), tree1, tree, d, t);
      CopiedKeepsNode(ram1, tree1, ram, tree, d, t, part - 1, lo, upto, hi, Node(d, part, p));
      CopiedNests(old(ram), old(tree), ram1, tree1, ram, tree, d, t, part, lo, upto, hi);
    }

    /** Clears the entry at table[i], freeing its frame if the entry is writable. */
    method ReleaseEntry(table: nat, i: Index, entry: Word, ghost n: Node)
      requires Allocator() && Accounted() && Injective(tree)
      requires n in tree && tree[n] == table && n.level > 0 && table < |ram|
      requires entry.writable <==> Child(n, i) in tree
      requires entry.writable ==> tree[Child(n, i)] == entry.addr
      modifies this`ram, this`tree, memoryManager`used, memoryManager.allocMap
      ensures Allocator() && Accounted()
      ensures tree == old(tree) - {Child(n, i)} && ram == SetWord(old(ram), table, i, ZERO_WORD)
    {
      DetachedValues(tree, Child(n, i));
      if entry.writable {
        assert entry.addr in tree.Values;
        memoryManager.Free(entry.addr, 1);
        assert MM.InRun(entry.addr, entry.addr, 1);
        assert MM.Frames(entry.addr, 1) == {entry.addr};
      }
      tree := tree - {Child(n, i)};
      ram := SetWord(ram, table, i, ZERO_WORD);
    }

    /** Frees the tables and the private pages of an application from entry addr.Part(level) on. */
    method CleanPageMap(table: nat, level: nat, addr: LinearAddress4Level, ghost s: nat, ghost p: nat) returns (err: Error)
      requires Valid() && Separated(ram, tree, kinds) && 1 <= level <= 4
      requires s in kinds && kinds[s].App?
      requires Node(s, level, p) in tree && tree[Node(s, level, p)] == table
      requires UserIndex(level, addr.Part(level)) && forall l :: 1 <= l < level ==> addr.Part(l) == 0
      modifies this`ram, this`tree, memoryManager`used, memoryManager.allocMap
      ensures Valid() && Separated(ram, tree, kinds) && err == Success
      ensures Cleaned(old(ram), old(tree), ram, tree, s, level, First(p * 512 + addr.Part(level), level - 1), First(p + 1, level))
      decreases level
    {
      hide Allocator, Accounted, Shape, Cleaned, Separated, Prefix, First, Leaf;
      ghost var n := Node(s, level, p);
      ghost var lo := First(p * 512 + addr.Part(level), level - 1);
      CleanedNothing(ram, tree, s, level, lo);
      ChildRange(p, addr.Part(level), level);
      var i := addr.Part(level);
      EntryAt(ram, tree, kinds, n, i);
      while i < ENTRIES
        invariant Valid() && Separated(ram, tree, kinds) && addr.Part(level) <= i <= ENTRIES
        invariant n in tree && tree[n] == table && table < |ram|
        invariant lo <= First(p * 512 + i, level - 1)
        invariant Cleaned(old(ram), old(tree), ram, tree, s, level, lo, First(p * 512 + i, level - 1))
      {
        ghost var ram0, tree0 := ram, tree;
        ghost var mid, next := First(p * 512 + i, level - 1), First(p * 512 + i + 1, level - 1);
        ChildRange(p, i, level);
        if !ram[table][i].present {
          CleanAbsent(ram, tree, kinds, n, i);
        } else {
          CleanEntry(table, level, i, addr, s, p);
        }
        CleanedJoins(old(ram), old(tree), ram0, tree0, ram, tree, s, level, lo, mid, next);
        CleanedKeepsNode(old(ram), old(tree), ram, tree, s, level, lo, next, n);
        i := i + 1;
      }
      err := Success;
    }

    /** One present entry: everything below it, then the entry itself. */
    method CleanEntry(table: nat, level: nat, i: Index, addr: LinearAddress4Level, ghost s: nat, ghost p: nat)
      requires Valid() && Separated(ram, tree, kinds) && 1 <= level <= 4
      requires s in kinds && kinds[s].App?
      requires Node(s, level, p) in tree && tree[Node(s, level, p)] == table
      requires UserIndex(level, i) && forall l :: 1 <= l < level ==> addr.Part(l) == 0
      requires ram[table][i].present
      modifies this`ram, this`tree, memoryManager`used, memoryManager.allocMap
      ensures Valid() && Separated(ram, tree, kinds)
      ensures Cleaned(old(ram), old(tree), ram, tree, s, level, First(p * 512 + i, level - 1), First(p * 512 + i + 1, level - 1))
      decreases level, 0
    {
      hide Shape, Cleaned, Separated, Prefix, First, Leaf, Injective;
      ghost var n, c := Node(s, level, p), Node(s, level - 1, p * 512 + i);
      ghost var lo, hi := First(p * 512 + i, level - 1), First(p * 512 + i + 1, level - 1);
      EntryAt(ram, tree, kinds, n, i);
      ChildRange(p, i, level);
      var entry := ram[table][i];
      if level > 1 {
        var err := CleanPageMap(entry.addr, level - 1, addr, s, p * 512 + i);
        CleanedKeepsNode(old(ram), old(tree), ram, tree, s, level - 1, lo, hi, n);
        CleanedKeepsNode(old(ram), old(tree), ram, tree, s, level - 1, lo, hi, c);
      } else {
        OwnLeafWritable(ram, tree, kinds, n, i);
      }
      ghost var ram1, tree1 := ram, tree;
      ShapeInjective(ram, tree, kinds);
      ReleaseEntry(table, i, entry, n);
      if level > 1 {
        CleanTable(old(ram), old(tree), ram1, tree1, kinds, n, i, ram, tree);
      } else {
        PageIsChildless(tree1, c);
        CleanLeaf(ram1, tree1, kinds, n, i, ram, tree);
      }
      CleanedSeparated(old(ram), old(tree), ram, tree, kinds, s, level, lo, hi);
    }

    method SetupPageMaps(addr: LinearAddress4Level, num: nat, writable: bool, ghost s: nat) returns (err: Error, ghost done: nat)
      requires Valid() && s in kinds && Root(s) in tree && cr3 == tree[Root(s)] && addr.Vpn() >= USER_BEGIN
      modifies this`ram, this`tree, memoryManager`used, memoryManager.allocMap
      ensures Valid() && (err == Success || err == NoEnoughMemory)
      ensures addr.Vpn() < VPN_COUNT && done <= ToTheEnd(addr.Vpn(), num)
      ensures err == Success ==> done == ToTheEnd(addr.Vpn(), num)
      ensures err != Success ==> done < ToTheEnd(addr.Vpn(), num)
      ensures SetUp(old(ram), old(tree), ram, tree, s, 4, addr.Vpn(), addr.Vpn() + done, addr.Vpn() + ToTheEnd(addr.Vpn(), num), writable)
      ensures err == NoEnoughMemory ==> Full()
    {
      hide *;
      PartOfVpn(addr, 4);
      WithinAll(addr.Vpn(), num);
      RootOf(s);
      var rest;
      rest, err, done := SetupPageMap(cr3, 4, addr, num, writable, s);
    }

    /** A new root table for space s: the kernel half copied, the upper half empty. */
    method SetupPML4(s: nat, k: Kind) returns (pml4: nat, err: Error)
      requires Valid() && Separated(ram, tree, kinds) && cr3 < |ram| && cr3 in memoryManager.used && s !in kinds
      requires k.App? ==> k.template in kinds && kinds[k.template].Template?
      modifies this`ram, this`tree, this`kinds, this`cr3, memoryManager`used, memoryManager.allocMap
      ensures Valid() && Separated(ram, tree, kinds)
      ensures err == Success || err == NoEnoughMemory
      ensures err == NoEnoughMemory ==> ram == old(ram) && tree == old(tree) && kinds == old(kinds) && cr3 == old(cr3)
      ensures err == Success ==>
        && cr3 == pml4 < |ram| && kinds == old(kinds)[s := k] && tree == old(tree)[Root(s) := pml4]
        && (forall i: Index :: ram[pml4][i] == if i < 256 then old(ram)[old(cr3)][i] else ZERO_WORD)
        && (forall n: Node :: n.space == s ==> n in tree ==> n == Root(s))
        && LeavesKept(old(ram), old(tree), ram, tree)
        && OnlySpace(old(ram), old(tree), old(kinds), ram, tree, kinds, base, s)
      ensures err == NoEnoughMemory ==> Full()
    {
      hide Full, Shape, Separated, LeavesKept, OnlySpace;
      ghost var ram0, tree0, kinds0 := ram, tree, kinds;
      NoNodesYet(ram, tree, kinds, s);
      pml4, err := NewPageMap();
      if err != Success {
        return;
      }
      var frame: Frame := ram[cr3][..256] + ram[pml4][256..];
      ram := ram[pml4 := frame];
      assert forall i: Index :: frame[i] == if i < 256 then ram0[cr3][i] else ZERO_WORD;
      cr3 := pml4;
      tree, kinds := tree[Root(s) := pml4], kinds[s := k];
      AttachedValues(tree0, Root(s), pml4);
      NewRoot(ram0, tree0, kinds0, s, k, pml4, ram, tree, kinds, base);
    }

    /** Frees the root table, the last frame of an application. */
    method FreePML4(s: nat) returns (err: Error)
      requires Valid() && Separated(ram, tree, kinds) && s in tasks && kernelRoot < |ram|
      requires s in kinds && kinds[s].App? && Root(s) in tree && tasks[s].cr3 == tree[Root(s)]
      requires forall n :: n in tree && n.space == s ==> n == Root(s)
      modifies this`tree, this`kinds, this`cr3, this`tasks, memoryManager`used, memoryManager.allocMap
      ensures Valid() && Separated(ram, tree, kinds) && err == Success
      ensures cr3 == kernelRoot && tasks == old(tasks) - {s}
      ensures tree == old(tree) - {Root(s)} && kinds == old(kinds) - {s}
      ensures OnlySpace(ram, old(tree), old(kinds), ram, tree, kinds, base, s)
    {
      hide Shape, Separated, OnlySpace;
      ghost var tree0, kinds0 := tree, kinds;
      AppRoot(ram, tree, kinds, s);
      ShapeInjective(ram, tree, kinds);
      DetachedValues(tree, Root(s));
      var root := tasks[s].cr3;
      tasks := tasks - {s};
      cr3 := kernelRoot;
      assert root in tree.Values;
      assert MM.InRun(root, root, 1);
      assert MM.Frames(root, 1) == {root};
      memoryManager.Free(root, 1);
      tree, kinds := tree - {Root(s)}, kinds - {s};
      RemoveSpace(ram, tree0, kinds0, s, tree, kinds);
      RootGone(ram, tree0, kinds0, s, tree, kinds, base);
      err := Success;
    }

    /** The end of an application: its pages and tables go, and then its root table. */
    method ExitApp(s: nat) returns (err: Error)
      requires Inv() && s in tasks
      modifies this`ram, this`tree, this`kinds, this`cr3, this`tasks, memoryManager`used, memoryManager.allocMap
      ensures Inv() && err == Success && tasks == old(tasks) - {s}
      ensures s !in kinds && forall n :: n in tree ==> n.space != s
      ensures OnlySpace(old(ram), old(tree), old(kinds), ram, tree, kinds, base, s)
    {
      hide Allocator, Accounted, Shape, Separated, OnlySpace, LeavesKept, Cleaned, First, RootsOk;
      ghost var ram0, tree0, kinds0 := ram, tree, kinds;
      TaskIsNoLoad(ram, tree, kinds, base, tasks, appLoads, cr3, kernelRoot, s);
      AppRoot(ram, tree, kinds, s);
      AppIsNoTemplate(ram, tree, kinds, s);
      KernelFrames();
      cr3 := tasks[s].cr3;
      var upperHalf := LinearAddress4Level(0, 0, 0, 0, 256);
      err := CleanPageMap(cr3, 4, upperHalf, s, 0);
      CleanedAll(ram0, tree0, kinds, ram, tree, s);
      CleanedIsLocal(ram0, tree0, kinds, ram, tree, base, s, 4, First(256, 3), First(1, 4));
      CleanedKeepsNode(ram0, tree0, ram, tree, s, 4, First(256, 3), First(1, 4), Root(s));
      ghost var ram1, tree1 := ram, tree;
      err := FreePML4(s);
      NoNodesYet(ram, tree, kinds, s);
      OnlySpaceJoins(ram0, tree0, kinds0, ram1, tree1, kinds0, ram, tree, kinds, base, s);
      SameSize(ram0, tree0, kinds0, ram, tree, kinds, base, s);
      RootsKept(ram0, tree0, kinds0, ram, tree, kinds, base, s, old(tasks), appLoads, old(cr3), kernelRoot, tasks, appLoads, cr3);
    }

    /** Points the entry for addr at `content` and makes it writable. */
    method SetPageContent(table: nat, part: nat, addr: LinearAddress4Level, content: nat, ghost s: nat)
      requires Allocator() && Shape(ram, tree, kinds) && 1 <= part <= 4 && content < |ram|
      requires USER_BEGIN <= addr.Vpn() && Leaf(ram, tree, s, addr.Vpn()).Some?
      requires Node(s, part, Prefix(addr.Vpn(), part)) in tree && tree[Node(s, part, Prefix(addr.Vpn(), part))] == table
      modifies this`ram
      ensures Allocator()
      ensures var v, n := addr.Vpn(), Node(s, 1, addr.Vpn() / 512);
        && n in tree && tree[n] < |old(ram)|
        && ram == SetWord(old(ram), tree[n], v % 512, Leaf(old(ram), tree, s, v).value.(addr := content, writable := true))
      decreases part
    {
      hide Shape, Prefix, Leaf;
      ghost var v := addr.Vpn();
      PartOfVpn(addr, part);
      LeafInTable(ram, tree, kinds, s, v);
      var i := addr.Part(part);
      if part == 1 {
        ram := SetWord(ram, table, i, ram[table][i].(addr := content));
        ram := SetWord(ram, table, i, ram[table][i].(writable := true));
        assert ram[table] == old(ram)[table][i := ram[table][i]];
        assert ram == SetWord(old(ram), table, i, ram[table][i]);
      } else {
        EntryAbove(ram, tree, kinds, s, v, part);
        SetPageContent(ram[table][i].addr, part - 1, addr, content, s);
      }
    }

    /** Gives the current application its own, writable copy of a page it shared. */
    method CopyOnePage(causal: nat, ghost s: nat) returns (err: Error)
      requires Valid() && Separated(ram, tree, kinds) && s in kinds && kinds[s].App? && Root(s) in tree && cr3 == tree[Root(s)]
      requires USER_BEGIN <= FromValue(causal).Vpn() && Shared(ram, tree, s, FromValue(causal).Vpn())
      modifies this`ram, this`tree, memoryManager`used, memoryManager.allocMap
      ensures Valid() && Separated(ram, tree, kinds)
      ensures err == Success || (err == NoEnoughMemory && ram == old(ram) && tree == old(tree))
      ensures OnlySpace(old(ram), old(tree), kinds, ram, tree, kinds, base, s)
      ensures forall q: nat :: View(ram, tree, s, q) == View(old(ram), old(tree), s, q)
      ensures forall q: nat :: q != FromValue(causal).Vpn() ==> Leaf(ram, tree, s, q) == Leaf(old(ram), old(tree), s, q)
      ensures Root(s) in tree && tree[Root(s)] == cr3
      ensures err == Success ==>
        Leaf(ram, tree, s, FromValue(causal).Vpn()).Some? && Leaf(ram, tree, s, FromValue(causal).Vpn()).value.writable
      ensures err == NoEnoughMemory ==> Full()
      ensures Added(old(tree), tree, s, FromValue(causal).Vpn(), FromValue(causal).Vpn() + 1)
    {
      hide Added, Full, Shape, Separated, OnlySpace, Leaf, View, FromValue, LinearAddress4Level.Vpn, Walk, NotATemplateInUse;
      var addr := FromValue(causal);
      var v := addr.Vpn();
      ghost var ram0, tree0 := ram, tree;
      PartOfVpn(addr, 4);
      WithinAll(v, 0);
      OnlySpaceRefl(ram, tree, kinds, base, s);
      AddedNone(tree, s, v, v + 1);
      MappedIsSeen(ram, tree, kinds, s, v);
      var p;
      p, err := NewPageMap();
      if err != Success {
        return;
      }
      CopySource(ram0, tree0, kinds, s, v, p, ram);
      var from := Walk(ram, cr3, 4, v);
      ram := ram[p := ram[from.value.frame]];
      assert ram == ram0[p := ram[p]];
      OutsideKeepsShape(ram0, tree0, kinds, p, ram[p]);
      SetPageContent(cr3, 4, addr, p, s);
      tree := tree[Node(s, 0, v) := p];
      AttachedValues(tree0, Node(s, 0, v), p);
      AddedPage(tree0, tree, s, v, p);
      AppIsNoTemplate(ram0, tree0, kinds, s);
      CopyOnWrite(ram0, tree0, kinds, s, v, p, ram, tree, base);
    }

    /** SetupPageMaps for the running application: missing pages come up zeroed and its own.
        Writable pages stay private exactly when none of these pages was shared. */
    method ProvidePages(s: nat, addr: LinearAddress4Level, num: nat) returns (err: Error, ghost done: nat)
      requires Valid() && Roots() && s in tasks && cr3 == tasks[s].cr3 && addr.Vpn() >= USER_BEGIN
      modifies this`ram, this`tree, memoryManager`used, memoryManager.allocMap
      ensures Valid() && Roots() && (err == Success || err == NoEnoughMemory)
      ensures addr.Vpn() < VPN_COUNT && done <= ToTheEnd(addr.Vpn(), num)
      ensures err == Success ==> done == ToTheEnd(addr.Vpn(), num)
      ensures err != Success ==> done < ToTheEnd(addr.Vpn(), num)
      ensures OnlySpace(old(ram), old(tree), kinds, ram, tree, kinds, base, s)
      ensures PagesProvided(old(ram), old(tree), ram, tree, s, addr.Vpn(), addr.Vpn() + done)
      ensures PagesSet(old(ram), old(tree), ram, tree, s, addr.Vpn(), addr.Vpn() + done, true)
      ensures old(Separated(ram, tree, kinds)) ==>
        (Separated(ram, tree, kinds) <==> NoneShared(old(ram), old(tree), s, addr.Vpn(), addr.Vpn() + done))
      ensures err == NoEnoughMemory ==> Full()
      ensures Added(old(tree), tree, s, addr.Vpn(), addr.Vpn() + ToTheEnd(addr.Vpn(), num))
    {
      hide Added, Full, Allocator, Accounted, Shape, Separated, OnlySpace, SetUp, PagesProvided, RootsOk, Leaf, PagesSet;
      ghost var ram0, tree0, v := ram, tree, addr.Vpn();
      TaskIsNoLoad(ram, tree, kinds, base, tasks, appLoads, cr3, kernelRoot, s);
      err, done := SetupPageMaps(addr, num, true, s);
      ghost var hi := v + ToTheEnd(v, num);
      KernelFrames();
      AppIsNoTemplate(ram0, tree0, kinds, s);
      SetUpIsLocal(ram0, tree0, kinds, ram, tree, base, s, 4, v, v + done, hi, true);
      SetUpProvides(ram0, tree0, kinds, ram, tree, s, 4, v, v + done, hi, true);
      SetUpKeepsNode(ram0, tree0, ram, tree, s, 4, v, v + done, hi, true, Root(s));
      AddedBySetUp(ram0, tree0, ram, tree, s, v, v + done, hi, true);
      SetUpPages(ram0, tree0, ram, tree, s, 4, v, v + done, hi, true);
      if Separated(ram0, tree0, kinds) {
        SetUpSeparated(ram0, tree0, ram, tree, kinds, s, v, v + done, true);
      }
      AppRoot(ram, tree, kinds, s);
      assert cr3 in tree.Values by { assert tree[Root(s)] in tree.Values; }
      RootsKept(ram0, tree0, kinds, ram, tree, kinds, base, s, tasks, appLoads, cr3, kernelRoot, tasks, appLoads, cr3);
    }

    /** The first mapping that contains the address. */
    method FindFileMapping(fmaps: seq<FileMapping>, causal: nat) returns (r: Option<FileMapping>)
      ensures r.None? ==> forall m :: m in fmaps ==> !(m.vaddrBegin <= causal < m.vaddrEnd)
      ensures r.Some? ==>
        exists i ::
          && 0 <= i < |fmaps| && fmaps[i] == r.value && r.value.vaddrBegin <= causal < r.value.vaddrEnd
          && (forall j :: 0 <= j < i ==> !(fmaps[j].vaddrBegin <= causal < fmaps[j].vaddrEnd))
      ensures r == FirstMapping(fmaps, causal)
    {
      for i := 0 to |fmaps|
        invariant forall j :: 0 <= j < i ==> !(fmaps[j].vaddrBegin <= causal < fmaps[j].vaddrEnd)
        invariant FirstMapping(fmaps[i..], causal) == FirstMapping(fmaps, causal)
      {
        assert fmaps[i..][1..] == fmaps[i + 1..];
        if fmaps[i].vaddrBegin <= causal < fmaps[i].vaddrEnd {
          return Some(fmaps[i]);
        }
      }
      return None;
    }

    /** A kernel-mode copy of a whole page to page v of the running application, writable or
        not. It stays private exactly when the page is its own or nothing changes. */
    method FillPage(s: nat, v: nat, frame: Frame)
      requires Inv() && s in tasks && cr3 == tasks[s].cr3
      requires USER_BEGIN <= v < VPN_COUNT && Leaf(ram, tree, s, v).Some?
      modifies this`ram
      ensures Inv() && |ram| == |old(ram)|
      ensures View(ram, tree, s, v) == Some(frame) && Leaf(ram, tree, s, v) == Leaf(old(ram), tree, s, v)
      ensures Node(s, 0, v) in tree ==> OnlySpace(old(ram), tree, kinds, ram, tree, kinds, base, s)
      ensures Node(s, 0, v) in tree ==> forall q: nat :: q != v ==> View(ram, tree, s, q) == View(old(ram), tree, s, q)
      ensures OthersSeeTheSame(old(ram), tree, ram, tree, s) <==> Node(s, 0, v) in tree || View(old(ram), tree, s, v) == Some(frame)
      ensures LeavesKept(old(ram), tree, ram, tree) && (View(old(ram), tree, s, v) == Some(frame) ==> ram == old(ram))
    {
      hide Accounted, Shape, Separated, OnlySpace, RootsOk, Leaf, View, LeavesKept;
      TaskIsNoLoad(ram, tree, kinds, base, tasks, appLoads, cr3, kernelRoot, s);
      SeenAs(ram, tree, kinds, s, v);
      WithinAll(v, 0);
      WalkFindsLeaf(ram, tree, kinds, s, 4, v);
      var to := Walk(ram, cr3, 4, v);
      KernelFrames();
      AppIsNoTemplate(ram, tree, kinds, s);
      ram := ram[to.value.frame := frame];
      StoreKeepsAll(old(ram), tree, kinds, s, v, frame, ram);
      KernelStoreSeen(old(ram), tree, kinds, s, v, frame, ram, base);
      if Node(s, 0, v) in tree {
        PageStore(old(ram), tree, kinds, s, v, frame, ram, base);
      }
      LeafKept(old(ram), tree, ram, tree, s, v);
      SameRoots(old(ram), ram, tree, kinds, base, tasks, appLoads, cr3, kernelRoot);
    }

    /** Loads one page of a mapped file into the running application. */
    method PreparePageCache(s: nat, m: FileMapping, causal: nat, ghost v: nat) returns (err: Error)
      requires Inv() && s in tasks && cr3 == tasks[s].cr3
      requires v == causal / 4096 && m.vaddrBegin <= v * 4096 && USER_BEGIN <= v < VPN_COUNT
      requires Leaf(ram, tree, s, v).None?
      modifies this`ram, this`tree, memoryManager`used, memoryManager.allocMap
      ensures Inv() && (err == Success || err == NoEnoughMemory)
      ensures OnlySpace(old(ram), old(tree), kinds, ram, tree, kinds, base, s)
      ensures forall q: nat :: err != Success || q != v ==> View(ram, tree, s, q) == View(old(ram), old(tree), s, q)
      ensures err == Success ==>
        && View(ram, tree, s, v) == Some(FilePage(Content(files, m.file), v * 4096 - m.vaddrBegin))
        && Leaf(ram, tree, s, v).Some? && Leaf(ram, tree, s, v).value.writable
      ensures err == NoEnoughMemory ==> Full()
      ensures Added(old(tree), tree, s, v, v + 1)
    {
      hide Added, Full, Valid, Separated, OnlySpace, PagesProvided, Roots, Leaf, View, FilePage, PagesSet, FromValue, LinearAddress4Level.Vpn;
      ghost var ram0, tree0 := ram, tree;
      PageOfValue(causal, v);
      NotShared(ram, tree, s, v);
      SeenIffMapped(s, v);
      var addr := FromValue(causal).(offset := 0);
      var page := causal / 4096;
      ghost var done;
      err, done := ProvidePages(s, addr, 1);
      ProvidedOne(ram0, tree0, ram, tree, s, v, done);
      if err != Success {
        return;
      }
      ghost var ram1, tree1 := ram, tree;
      SetPage(ram0, tree0, ram, tree, s, v);
      FillPage(s, page, FilePage(Content(files, m.file), page * 4096 - m.vaddrBegin));
      OnlySpaceJoins(ram0, tree0, kinds, ram1, tree1, kinds, ram, tree, kinds, base, s);
    }

    /** The fault of a user-mode write to a page that is mapped read-only. */
    method WriteFault(causal: nat, s: nat, ghost v: nat) returns (err: Error)
      requires Inv() && s in tasks && cr3 == tasks[s].cr3
      requires v == causal / 4096 && USER_BEGIN <= v < VPN_COUNT
      requires Leaf(ram, tree, s, v).Some? && !Leaf(ram, tree, s, v).value.writable
      modifies this`ram, this`tree, memoryManager`used, memoryManager.allocMap
      ensures Inv() && OnlySpace(old(ram), old(tree), kinds, ram, tree, kinds, base, s)
      ensures err == Success || err == NoEnoughMemory
      ensures forall q: nat :: View(ram, tree, s, q) == View(old(ram), old(tree), s, q)
      ensures err == Success ==> Leaf(ram, tree, s, v).Some? && Leaf(ram, tree, s, v).value.writable
      ensures err == NoEnoughMemory ==> Full()
      ensures Added(old(tree), tree, s, v, v + 1)
    {
      hide Added, Full, Allocator, Accounted, Shape, Separated, OnlySpace, RootsOk, Leaf, View, FromValue, LinearAddress4Level.Vpn;
      ghost var ram0, tree0 := ram, tree;
      PageOfValue(causal, v);
      TaskIsNoLoad(ram, tree, kinds, base, tasks, appLoads, cr3, kernelRoot, s);
      SharedWhenReadOnly(s, v);
      err := CopyOnePage(causal, s);
      AppRoot(ram, tree, kinds, s);
      assert cr3 in tree.Values;
      RootsKept(ram0, tree0, kinds, ram, tree, kinds, base, s, tasks, appLoads, cr3, kernelRoot, tasks, appLoads, cr3);
    }

    /** The page fault of application s at address `causal`, which lies in page v; the error
        code's bits agree with the page's entry. */
    method HandlePageFault(present: bool, rw: bool, user: bool, causal: nat, s: nat, ghost v: nat) returns (err: Error)
      requires Inv() && s in tasks && cr3 == tasks[s].cr3
      requires v == causal / 4096 && USER_BEGIN <= v < VPN_COUNT
      requires present <==> Leaf(ram, tree, s, v).Some?
      requires present && rw && user ==> !Leaf(ram, tree, s, v).value.writable
      modifies this`ram, this`tree, memoryManager`used, memoryManager.allocMap
      ensures Inv() && OnlySpace(old(ram), old(tree), kinds, ram, tree, kinds, base, s)
      ensures forall q: nat :: err != Success || present || q != v ==> View(ram, tree, s, q) == View(old(ram), old(tree), s, q)
      ensures err == Success ==> Leaf(ram, tree, s, v).Some? && Leaf(ram, tree, s, v).value.writable
      ensures err == Success && !present ==> View(ram, tree, s, v).Some? && View(ram, tree, s, v) == Served(tasks[s], files, v)
      ensures err == AlreadyAllocated <==> present && !(rw && user)
      ensures err == IndexOutOfRange <==> !present && Served(tasks[s], files, v) == None
      ensures err == NoEnoughMemory ==> Full()
      ensures Added(old(tree), tree, s, v, v + 1)
    {
      hide Added, Full, Valid, Shape, Separated, OnlySpace, PagesProvided, RootsOk, Leaf, View, FilePage, PagesSet, FromValue, LinearAddress4Level.Vpn,
        Served, FirstMapping, Shared;
      ghost var ram0, tree0 := ram, tree;
      PageOfValue(causal, v);
      SeenIffMapped(s, v);
      OnlySpaceRefl(ram, tree, kinds, base, s);
      AddedNone(tree, s, v, v + 1);
      TaskIsNoLoad(ram, tree, kinds, base, tasks, appLoads, cr3, kernelRoot, s);
      ServedIs(tasks[s], files, causal, v);
      if present && rw && user {
        err := WriteFault(causal, s, v);
        return;
      } else if present {
        return AlreadyAllocated;
      }
      if tasks[s].dpagingBegin <= causal < tasks[s].dpagingEnd {
        NotShared(ram, tree, s, v);
        ghost var done;
        err, done := ProvidePages(s, FromValue(causal), 1);
        ProvidedOne(ram0, tree0, ram, tree, s, v, done);
        if err == Success {
          SetPage(ram0, tree0, ram, tree, s, v);
          ZeroedIs(View(ram, tree, s, v).value);
        }
        return;
      }
      var m := FindFileMapping(tasks[s].fileMaps, causal);
      if m.Some? {
        err := PreparePageCache(s, m.value, causal, v);
        return;
      }
      return IndexOutOfRange;
    }

    /** Makes s the running application. */
    method SwitchTo(s: nat)
      requires Inv() && s in tasks
      modifies this`cr3
      ensures Inv() && cr3 == tasks[s].cr3
    {
      hide Valid, Separated, AreasOk;
      TaskIsNoLoad(ram, tree, kinds, base, tasks, appLoads, cr3, kernelRoot, s);
      CurrentRoot(ram, tree, kinds, base, tasks, appLoads, cr3, kernelRoot);
      RootFrame(s);
      cr3 := tasks[s].cr3;
    }

    /** A user-mode store of application s to word k of page v: the walk, the fault if there
        is one, and the store. A fault that cannot be resolved stops the store. */
    method StoreWord(s: nat, causal: nat, k: Index, w: Word) returns (ok: bool)
      requires Inv() && s in tasks && USER_BEGIN <= causal / 4096 < VPN_COUNT
      modifies this`ram, this`tree, this`cr3, memoryManager`used, memoryManager.allocMap
      ensures Inv() && OnlySpace(old(ram), old(tree), kinds, ram, tree, kinds, base, s)
      ensures forall q: nat :: !ok || q != causal / 4096 ==> View(ram, tree, s, q) == View(old(ram), old(tree), s, q)
      ensures ok ==>
        && PageShown(old(ram), old(tree), s, tasks[s], files, causal / 4096).Some?
        && View(ram, tree, s, causal / 4096) == Put(PageShown(old(ram), old(tree), s, tasks[s], files, causal / 4096), k, w)
      ensures !ok ==> Full() || PageShown(old(ram), old(tree), s, tasks[s], files, causal / 4096) == None
      ensures Added(old(tree), tree, s, causal / 4096, causal / 4096 + 1)
    {
      hide Added, Full, Valid, Separated, OnlySpace, Roots, Leaf, View, Served, Walk, Shape;
      var v := causal / 4096;
      ghost var ram0, tree0 := ram, tree;
      OnlySpaceRefl(ram, tree, kinds, base, s);
      AddedNone(tree, s, v, v + 1);
      SwitchTo(s);
      WalkOf(s, v);
      SeenIffMapped(s, v);
      var t := Walk(ram, cr3, 4, v);
      if t.None? || !t.value.writable || !t.value.user {
        var err := HandlePageFault(t.Some?, true, true, causal, s, v);
        if err != Success {
          return false;
        }
      }
      ghost var ram1, tree1 := ram, tree;
      WalkOf(s, v);
      t := Walk(ram, cr3, 4, v);
      ghost var before := ram[t.value.frame];
      OwnWhenWritable(s, v);
      FillPage(s, v, ram[t.value.frame][k := w]);
      OnlySpaceJoins(ram0, tree0, kinds, ram1, tree1, kinds, ram, tree, kinds, base, s);
      return true;
    }

    /** A kernel-mode store of a system call to word k of page v. Protection does not stop it,
        so it reaches the image's own page when the application has not stored there before. */
    method KernelStoreWord(s: nat, causal: nat, k: Index, w: Word) returns (ok: bool)
      requires Inv() && s in tasks && USER_BEGIN <= causal / 4096 < VPN_COUNT
      modifies this`ram, this`tree, this`cr3, memoryManager`used, memoryManager.allocMap
      ensures Inv()
      ensures !ok || !WouldSpoil(old(ram), old(tree), s, causal / 4096, k, w) ==>
        && OnlySpace(old(ram), old(tree), kinds, ram, tree, kinds, base, s)
        && forall q: nat :: !ok || q != causal / 4096 ==> View(ram, tree, s, q) == View(old(ram), old(tree), s, q)
      ensures ok ==>
        && PageShown(old(ram), old(tree), s, tasks[s], files, causal / 4096).Some?
        && View(ram, tree, s, causal / 4096) == Put(PageShown(old(ram), old(tree), s, tasks[s], files, causal / 4096), k, w)
        && (OthersSeeTheSame(old(ram), old(tree), ram, tree, s) <==>
              !Shared(old(ram), old(tree), s, causal / 4096) || PageShown(old(ram), old(tree), s, tasks[s], files, causal / 4096).value[k] == w)
      ensures !ok ==> Full() || PageShown(old(ram), old(tree), s, tasks[s], files, causal / 4096) == None
      ensures Added(old(tree), tree, s, causal / 4096, causal / 4096 + 1)
      ensures Shared(old(ram), old(tree), s, causal / 4096) ==>
        && ok && tree == old(tree) && LeavesKept(old(ram), tree, ram, tree)
        && s in kinds && kinds[s].App?
        && View(ram, tree, kinds[s].template, causal / 4096) == View(ram, tree, s, causal / 4096)
    {
      hide Added, Full, Valid, Separated, OnlySpace, Roots, Leaf, View, Served, Walk, Shape, OthersSeeTheSame, LeavesKept;
      var v := causal / 4096;
      ghost var ram0, tree0 := ram, tree;
      OnlySpaceRefl(ram, tree, kinds, base, s);
      AddedNone(tree, s, v, v + 1);
      SwitchTo(s);
      WalkOf(s, v);
      SeenIffMapped(s, v);
      SharedOrOwn(s, v);
      var t := Walk(ram, cr3, 4, v);
      if t.None? {
        var err := HandlePageFault(false, true, false, causal, s, v);
        if err != Success {
          return false;
        }
        OwnWhenWritable(s, v);
      }
      ghost var ram1, tree1 := ram, tree;
      WalkOf(s, v);
      t := Walk(ram, cr3, 4, v);
      SameWord(ram[t.value.frame], k, w);
      FillPage(s, v, ram[t.value.frame][k := w]);
      SharedOrOwn(s, v);
      if Shared(ram, tree, s, v) {
        SeenInTemplate(s, v);
      }
      if Node(s, 0, v) in tree {
        OnlySpaceJoins(ram0, tree0, kinds, ram1, tree1, kinds, ram, tree, kinds, base, s);
        LocalViews(ram0, tree0, kinds, ram, tree, base, s);
      }
      return true;
    }

    /** Whether a store to this page would stay in the application: the page is its own, or
        missing. */
    method IsOwn(s: nat, causal: nat) returns (own: bool)
      requires Inv() && s in tasks && USER_BEGIN <= causal / 4096 < VPN_COUNT
      ensures own <==> !Shared(ram, tree, s, causal / 4096)
    {
      hide Valid, Separated, Roots, Leaf, View, Walk, Shape, Shared;
      var v := causal / 4096;
      OwnOrShared(s, v);
      var t := Walk(ram, tasks[s].cr3, 4, v);
      own := t.None? || t.value.writable;
    }

    /** Whether a system call's store of this word would reach others. */
    method Spoils(s: nat, causal: nat, k: Index, w: Word) returns (spoils: bool)
      requires Inv() && s in tasks && USER_BEGIN <= causal / 4096 < VPN_COUNT
      ensures spoils <==> WouldSpoil(ram, tree, s, causal / 4096, k, w)
    {
      hide Valid, Separated, Roots, Leaf, View, Walk, Shape, Shared;
      var own := IsOwn(s, causal);
      if own {
        return false;
      }
      SharedWord(s, causal / 4096);
      var t := Walk(ram, tasks[s].cr3, 4, causal / 4096);
      spoils := ram[t.value.frame][k] != w;
    }

    lemma SharedWord(s: nat, v: nat)
      requires Inv() && s in tasks && USER_BEGIN <= v < VPN_COUNT && Shared(ram, tree, s, v)
      ensures var t := Walk(ram, tasks[s].cr3, 4, v);
        t.Some? && t.value.frame < |ram| && View(ram, tree, s, v) == Some(ram[t.value.frame])
    {
      hide Allocator, Accounted, Shape, RootsOk, Leaf;
      TaskIsNoLoad(ram, tree, kinds, base, tasks, appLoads, cr3, kernelRoot, s);
      WithinAll(v, 0);
      WalkFindsLeaf(ram, tree, kinds, s, 4, v);
      SeenAs(ram, tree, kinds, s, v);
    }

    lemma OwnOrShared(s: nat, v: nat)
      requires Inv() && s in tasks && USER_BEGIN <= v < VPN_COUNT
      ensures var t := Walk(ram, tasks[s].cr3, 4, v); Shared(ram, tree, s, v) <==> t.Some? && !t.value.writable
    {
      hide Allocator, Accounted, Shape, RootsOk, Leaf;
      TaskIsNoLoad(ram, tree, kinds, base, tasks, appLoads, cr3, kernelRoot, s);
      WithinAll(v, 0);
      WalkFindsLeaf(ram, tree, kinds, s, 4, v);
    }

    lemma SeenInTemplate(s: nat, v: nat)
      requires Valid() && Shared(ram, tree, s, v)
      ensures s in kinds && kinds[s].App? && View(ram, tree, s, v) == View(ram, tree, kinds[s].template, v)
    {
      hide Shape, Shared;
      SharedSees(ram, tree, kinds, s, v);
    }

    lemma SharedOrOwn(s: nat, v: nat)
      requires Valid()
      ensures Shared(ram, tree, s, v) <==> Leaf(ram, tree, s, v).Some? && Node(s, 0, v) !in tree
    {}

    /** The hardware walk from the running application's root finds what the leaf entries say. */
    lemma WalkOf(s: nat, v: nat)
      requires Inv() && s in tasks && cr3 == tasks[s].cr3 && USER_BEGIN <= v < VPN_COUNT
      ensures Walk(ram, cr3, 4, v) ==
              match Leaf(ram, tree, s, v)
              case None => None
              case Some(e) => Some(Translation(e.addr, e.writable, e.user))
      ensures Leaf(ram, tree, s, v).Some? ==>
        && Leaf(ram, tree, s, v).value.addr < |ram| && Leaf(ram, tree, s, v).value.user
        && View(ram, tree, s, v) == Some(ram[Leaf(ram, tree, s, v).value.addr])
    {
      hide Allocator, Accounted, Shape, Separated, RootsOk, Leaf;
      TaskIsNoLoad(ram, tree, kinds, base, tasks, appLoads, cr3, kernelRoot, s);
      WithinAll(v, 0);
      WalkFindsLeaf(ram, tree, kinds, s, 4, v);
      MappedIsSeen(ram, tree, kinds, s, v);
      if Leaf(ram, tree, s, v).Some? {
        LeafEntry(ram, tree, kinds, s, v);
      }
    }

    lemma OwnWhenWritable(s: nat, v: nat)
      requires Inv() && Leaf(ram, tree, s, v).Some? && Leaf(ram, tree, s, v).value.writable
      ensures Node(s, 0, v) in tree
    {
      hide RootsOk, Shape, Allocator, Accounted;
      WritableIsOwn(ram, tree, kinds, s, v);
    }

    lemma RootFrame(s: nat)
      requires Inv() && s in tasks
      ensures tasks[s].cr3 in tree.Values && tasks[s].cr3 < |ram|
    {
      hide Allocator, Accounted, Shape, Separated, RootsOk;
      TaskIsNoLoad(ram, tree, kinds, base, tasks, appLoads, cr3, kernelRoot, s);
      AppRoot(ram, tree, kinds, s);
    }

    /** The heap of application s grows by n pages. */
    method DemandPages(s: nat, n: nat) returns (begin: nat)
      requires Inv() && s in tasks
      modifies this`tasks
      ensures Inv() && begin == old(tasks)[s].dpagingEnd
      ensures tasks == old(tasks)[s := old(tasks)[s].(dpagingEnd := begin + 4096 * n)]
    {
      hide Valid, Separated, LoadOk;
      begin := tasks[s].dpagingEnd;
      assert TaskOk(tree, kinds, s, tasks[s]);
      tasks := tasks[s := tasks[s].(dpagingEnd := begin + 4096 * n)];
    }

    /** A file gets the page-aligned room below everything mapped so far. */
    method MapFile(s: nat, file: nat) returns (begin: nat)
      requires Inv() && s in tasks && |Content(files, file)| <= tasks[s].fileMapEnd
      modifies this`tasks
      ensures Inv() && begin % 4096 == 0
      ensures begin + |Content(files, file)| <= old(tasks)[s].fileMapEnd < begin + |Content(files, file)| + 4096
      ensures tasks == old(tasks)[s := WithFile(old(tasks)[s], file, |Content(files, file)|)] && begin == tasks[s].fileMapEnd
      ensures forall m :: m in old(tasks)[s].fileMaps ==> old(tasks)[s].fileMapEnd <= m.vaddrBegin
    {
      hide Valid, Separated, LoadOk;
      assert TaskOk(tree, kinds, s, tasks[s]);
      var size := |Content(files, file)|;
      FileAreas(tasks[s], file, size);
      var end := tasks[s].fileMapEnd;
      begin := (end - size) / 4096 * 4096;
      tasks := tasks[s := tasks[s].(fileMapEnd := begin, fileMaps := tasks[s].fileMaps + [FileMapping(file, begin, end)])];
    }

    /** A file is written. Pages of it that are in memory already stay what they are. */
    method WriteFile(file: nat, content: seq<Byte>)
      requires Inv()
      modifies this`files
      ensures Inv() && files == old(files)[file := content]
    {
      files := files[file := content];
    }

    /** A new address space that shares every page of the cached image t. */
    method LoadApp(d: nat, t: nat) returns (err: Error)
      requires Inv() && d !in kinds && t in appLoads
      modifies this`ram, this`tree, this`kinds, this`cr3, this`tasks, memoryManager`used, memoryManager.allocMap
      ensures Inv() && (err == Success || err == NoEnoughMemory)
      ensures OnlySpace(old(ram), old(tree), old(kinds), ram, tree, kinds, base, d)
      ensures forall r :: r != d ==> (r in tasks <==> r in old(tasks)) && (r in tasks ==> tasks[r] == old(tasks)[r])
      ensures d in kinds ==> d in tasks
      ensures err == Success ==>
        && d in tasks && cr3 == tasks[d].cr3 && tasks[d] == TaskMemory(cr3, 0, 0, 0, [])
        && (forall q: nat :: USER_BEGIN <= q < VPN_COUNT ==>
              View(ram, tree, d, q) == View(old(ram), old(tree), t, q) && Leaf(ram, tree, d, q) == AsShared(Leaf(old(ram), old(tree), t, q)))
      ensures err == NoEnoughMemory ==> Full()
      ensures MirrorsOrRoot(old(tree), tree, d, t)
      ensures err == Success ==> kinds == old(kinds)[d := App(t)]
    {
      hide Mirrors, MirrorsOrRoot, Full, Allocator, Accounted, Shape, Separated, OnlySpace, LeavesKept, Copied, Leaf, View, First, RootsOk, PagesShared;
      ghost var ram0, tree0, kinds0 := ram, tree, kinds;
      CurrentRoot(ram, tree, kinds, base, tasks, appLoads, cr3, kernelRoot);
      LoadOf(ram, tree, kinds, base, tasks, appLoads, cr3, kernelRoot, t);
      UnknownTask(ram, tree, kinds, base, tasks, appLoads, cr3, kernelRoot, d);
      OnlySpaceRefl(ram, tree, kinds, base, d);
      var src := appLoads[t];
      MirrorsNothing(tree, d, t);
      CurrentAllocated();
      var pml4;
      pml4, err := SetupPML4(d, App(t));
      if err != Success {
        return;
      }
      tasks := tasks[d := TaskMemory(pml4, 0, 0, 0, [])];
      ghost var ram1, tree1 := ram, tree;
      AppRoot(ram, tree, kinds, d);
      assert cr3 in tree.Values by { assert tree[Root(d)] in tree.Values; }
      RootsKept(ram0, tree0, kinds0, ram, tree, kinds, base, d, old(tasks), appLoads, old(cr3), kernelRoot, tasks, appLoads, cr3);
      OtherRoot(ram0, tree0, kinds0, ram, tree, kinds, base, d, t);
      WholeHalf();
      ghost var upto;
      err, upto := CopyPageMaps(pml4, src, 4, 256, d, t, 0);
      MirrorsAfterRoot(tree0, tree1, tree, d, t, pml4);
      KernelFrames();
      CopyDone(ram0, tree0, ram1, tree1, ram, tree, kinds0, kinds, d, t, upto, base);
      AppRoot(ram, tree, kinds, d);
      CopiedKeepsNode(ram1, tree1, ram, tree, d, t, 4, USER_BEGIN, upto, VPN_COUNT, Root(d));
      assert cr3 in tree.Values by { assert tree[Root(d)] in tree.Values; }
      RootsKept(ram1, tree1, kinds, ram, tree, kinds, base, d, tasks, appLoads, cr3, kernelRoot, tasks, appLoads, cr3);
    }

    /** What ExecuteFile does before calling the application: its address space with the
        image, the argument page and the stack, and an empty heap after the image. Writable
        pages stay private exactly when the image leaves the stack and argument pages free. */
    method LaunchApp(d: nat, t: nat, vaddrEnd: nat) returns (err: Error)
      requires Inv() && d !in kinds && t in appLoads
      modifies this`ram, this`tree, this`kinds, this`cr3, this`tasks, memoryManager`used, memoryManager.allocMap
      ensures Valid() && Roots() && (err == Success || err == NoEnoughMemory)
      ensures ClearFrom(old(ram), old(tree), t, STACK_BEGIN) ==> Inv()
      ensures err == Success ==> (Separated(ram, tree, kinds) <==> ClearFrom(old(ram), old(tree), t, STACK_BEGIN))
      ensures OnlySpace(old(ram), old(tree), old(kinds), ram, tree, kinds, base, d)
      ensures forall r :: r != d ==> (r in tasks <==> r in old(tasks)) && (r in tasks ==> tasks[r] == old(tasks)[r])
      ensures d in kinds ==> d in tasks
      ensures err == Success ==> d in tasks && StartedFrom(old(ram), old(tree), ram, tree, d, t)
      ensures err == Success ==> tasks[d] == FirstAreas(vaddrEnd).(cr3 := cr3) && AreasStart(tasks[d], vaddrEnd)
      ensures err == NoEnoughMemory ==> Full()
      ensures StartNodes(old(tree), tree, d, t)
      ensures err == Success ==> forall q: nat :: STACK_BEGIN <= q < VPN_COUNT && Leaf(old(ram), old(tree), t, q).Some? ==> WritesThrough(ram, tree, d, q)
      ensures err == Success ==> kinds == old(kinds)[d := App(t)]
    {
      hide WritesThrough, Added, StartNodes, MirrorsOrRoot, Full, Valid, Separated, OnlySpace, Leaf, View, RootsOk, PagesProvided, PagesSet, NoneShared, ClearFrom, SameAsTemplate;
      ghost var ram0, tree0, kinds0 := ram, tree, kinds;
      err := LoadApp(d, t);
      StartMirrors(tree0, tree, d, t);
      if err != Success {
        return;
      }
      ghost var ram1, tree1 := ram, tree;
      AsTemplate(ram0, tree0, ram, tree, d, t);
      var args := LinearAddress4Level(0, 511, 511, 511, 511);
      if ClearFrom(ram0, tree0, t, STACK_BEGIN) {
        NotYetShared(ram0, tree0, ram1, tree1, d, t, ARGS_PAGE, VPN_COUNT);
      }
      ghost var done;
      err, done := ProvidePages(d, args, 1);
      AddedWider(tree1, tree, d, ARGS_PAGE, ARGS_PAGE + 1, STACK_BEGIN, VPN_COUNT);
      StartNodesStep(tree0, tree1, tree, d, t);
      OnlySpaceJoins(ram0, tree0, kinds0, ram1, tree1, kinds, ram, tree, kinds, base, d);
      if err != Success {
        NoPages(ram1, tree1, d, ARGS_PAGE);
        return;
      }
      ghost var ram2, tree2 := ram, tree;
      var stack := LinearAddress4Level(0, 511 - STACK_PAGES, 511, 511, 511);
      if ClearFrom(ram0, tree0, t, STACK_BEGIN) {
        StackNotShared(ram0, tree0, ram1, tree1, ram2, tree2, d, t);
      }
      err, done := ProvidePages(d, stack, STACK_PAGES);
      AddedWider(tree2, tree, d, STACK_BEGIN, STACK_BEGIN + STACK_PAGES, STACK_BEGIN, VPN_COUNT);
      StartNodesStep(tree0, tree2, tree, d, t);
      OnlySpaceJoins(ram0, tree0, kinds0, ram2, tree2, kinds, ram, tree, kinds, base, d);
      if err != Success {
        FewerShared(ram2, tree2, d, STACK_BEGIN, STACK_BEGIN + done, ARGS_PAGE);
        return;
      }
      LaunchDone(ram0, tree0, ram1, tree1, ram2, tree2, ram, tree, d, t);
      TaskIsNoLoad(ram, tree, kinds, base, tasks, appLoads, cr3, kernelRoot, d);
      LaunchSeparated(ram0, tree0, ram1, tree1, ram2, tree2, ram, tree, kinds, d, t);
      SetTask(d, (vaddrEnd + 4095) / 4096 * 4096);
      FirstAreasStart(vaddrEnd, cr3);
    }

    /** The task's heap starts, empty, at `heap`; files are mapped below the stack. */
    method SetTask(d: nat, heap: nat)
      requires Roots() && d in tasks && tasks[d].fileMaps == [] && heap % 4096 == 0
      modifies this`tasks
      ensures Roots()
      ensures tasks == old(tasks)[d := TaskMemory(old(tasks)[d].cr3, heap, heap, STACK_BEGIN * 4096, [])]
    {
      hide LoadOk;
      assert TaskOk(tree, kinds, d, tasks[d]);
      tasks := tasks[d := TaskMemory(tasks[d].cr3, heap, heap, STACK_BEGIN * 4096, [])];
    }

    /** One word of an image being loaded; protection does not stop the kernel's store. */
    method StoreToImage(t: nat, v: nat, k: Index, w: Word)
      requires Valid() && Separated(ram, tree, kinds) && t in kinds && kinds[t].Template? && NotATemplateInUse(kinds, t)
      requires Root(t) in tree && cr3 == tree[Root(t)] && USER_BEGIN <= v < VPN_COUNT && Leaf(ram, tree, t, v).Some?
      modifies this`ram
      ensures Valid() && Separated(ram, tree, kinds) && LeavesKept(old(ram), tree, ram, tree)
      ensures OnlySpace(old(ram), tree, kinds, ram, tree, kinds, base, t)
      ensures View(old(ram), tree, t, v).Some? && View(ram, tree, t, v) == Some(View(old(ram), tree, t, v).value[k := w])
      ensures forall q: nat :: q != v ==> View(ram, tree, t, q) == View(old(ram), tree, t, q)
    {
      hide Accounted, Shape, Separated, OnlySpace, Leaf, LeavesKept;
      WithinAll(v, 0);
      WalkFindsLeaf(ram, tree, kinds, t, 4, v);
      MappedIsSeen(ram, tree, kinds, t, v);
      LeafEntry(ram, tree, kinds, t, v);
      KernelFrames();
      var to := Walk(ram, cr3, 4, v).value.frame;
      ram := ram[to := ram[to][k := w]];
      PageStore(old(ram), tree, kinds, t, v, old(ram)[to][k := w], ram, base);
    }

    /** One segment of an image: its pages, read-only, and then its contents. */
    method LoadSegment(t: nat, seg: Segment) returns (err: Error)
      requires Valid() && Separated(ram, tree, kinds) && t in kinds && kinds[t].Template? && NotATemplateInUse(kinds, t)
      requires Root(t) in tree && cr3 == tree[Root(t)] && SegmentOk(seg)
      modifies this`ram, this`tree, memoryManager`used, memoryManager.allocMap
      ensures Valid() && Separated(ram, tree, kinds) && (err == Success || err == NoEnoughMemory)
      ensures Root(t) in tree && cr3 == tree[Root(t)]
      ensures OnlySpace(old(ram), old(tree), kinds, ram, tree, kinds, base, t)
      ensures err == Success ==> WordsLoaded(old(ram), old(tree), ram, tree, t, seg.addr.Vpn(), seg.pages, seg.words)
      ensures err == NoEnoughMemory ==> Full()
      ensures Added(old(tree), tree, t, seg.addr.Vpn(), seg.addr.Vpn() + seg.pages)
    {
      hide Added, Full, Allocator, Accounted, Shape, Separated, OnlySpace, Leaf, View, LeavesKept, SetUp, PagesProvided, WordsLoaded;
      ghost var ram0, tree0, v := ram, tree, seg.addr.Vpn();
      ghost var done;
      err, done := SetupPageMaps(seg.addr, seg.pages, false, t);
      SegmentSetUp(ram0, tree0, t, v, done, v + ToTheEnd(v, seg.pages));
      AddedBySetUp(ram0, tree0, ram, tree, t, v, v + done, v + ToTheEnd(v, seg.pages), false);
      if err != Success {
        return;
      }
      NoWordsYet(ram0, tree0, ram, tree, t, v, seg.pages);
      assert seg.words[..0] == [];
      for j := 0 to |seg.words|
        invariant Valid() && Separated(ram, tree, kinds)
        invariant Root(t) in tree && cr3 == tree[Root(t)]
        invariant OnlySpace(old(ram), old(tree), kinds, ram, tree, kinds, base, t)
        invariant WordsLoaded(ram0, tree0, ram, tree, t, v, seg.pages, seg.words[..j])
        invariant Added(tree0, tree, t, v, v + seg.pages)
      {
        ghost var ram1 := ram;
        var (page, k, w) := seg.words[j];
        LoadedIsMapped(ram0, tree0, t, v, seg.pages, seg.words[..j], page);
        StoreToImage(t, page, k, w);
        OnlySpaceJoins(old(ram), old(tree), kinds, ram1, tree, kinds, ram, tree, kinds, base, t);
        NextWord(ram0, tree0, ram1, ram, tree, t, v, seg.pages, seg.words, j);
      }
      assert seg.words[..|seg.words|] == seg.words;
    }

    lemma LoadedIsMapped(ram0: Ram, tree0: Tree, t: nat, v: nat, pages: nat, words: seq<(nat, Index, Word)>, q: nat)
      requires Valid() && WordsLoaded(ram0, tree0, ram, tree, t, v, pages, words) && v <= q < v + pages
      ensures Leaf(ram, tree, t, q).Some?
    {
      hide Allocator, Accounted, Shape, Leaf, View;
      MappedIsSeen(ram, tree, kinds, t, q);
    }

    lemma SegmentSetUp(ram0: Ram, tree0: Tree, t: nat, v: nat, done: nat, hi: nat)
      requires Valid() && Shape(ram0, tree0, kinds) && Separated(ram0, tree0, kinds)
      requires t in kinds && kinds[t].Template? && NotATemplateInUse(kinds, t) && Root(t) in tree0
      requires SetUp(ram0, tree0, ram, tree, t, 4, v, v + done, hi, false)
      ensures Separated(ram, tree, kinds) && OnlySpace(ram0, tree0, kinds, ram, tree, kinds, base, t)
      ensures Root(t) in tree && tree[Root(t)] == tree0[Root(t)]
      ensures PagesProvided(ram0, tree0, ram, tree, t, v, v + done)
    {
      hide Allocator, Shape, Separated, OnlySpace, Leaf, View, SetUp, PagesProvided;
      SetUpProvides(ram0, tree0, kinds, ram, tree, t, 4, v, v + done, hi, false);
      SetUpIsLocal(ram0, tree0, kinds, ram, tree, base, t, 4, v, v + done, hi, false);
      SetUpKeepsNode(ram0, tree0, ram, tree, t, 4, v, v + done, hi, false, Root(t));
      SetUpPages(ram0, tree0, ram, tree, t, 4, v, v + done, hi, false);
      SetUpSeparated(ram0, tree0, ram, tree, kinds, t, v, v + done, false);
    }

    /** Loads an application image and keeps it, read-only, as the template of later runs. */
    method LoadImage(t: nat, segments: seq<Segment>) returns (err: Error)
      requires Inv() && t !in kinds && forall seg :: seg in segments ==> SegmentOk(seg)
      modifies this`ram, this`tree, this`kinds, this`cr3, this`appLoads, memoryManager`used, memoryManager.allocMap
      ensures Inv() && (err == Success || err == NoEnoughMemory)
      ensures OnlySpace(old(ram), old(tree), old(kinds), ram, tree, kinds, base, t)
      ensures appLoads == if err == Success then old(appLoads)[t := cr3] else old(appLoads)
      ensures err == Success ==> ImageLoaded(ram, tree, t, segments)
      ensures err == NoEnoughMemory ==> Full()
      ensures ImageNodes(tree, t, segments)
    {
      hide ImageNodes, Added, Full, Valid, Separated, OnlySpace, Leaf, View, LeavesKept, RootsOk, WordsLoaded, ImageLoaded;
      ghost var ram0, tree0, kinds0 := ram, tree, kinds;
      UnknownTask(ram, tree, kinds, base, tasks, appLoads, cr3, kernelRoot, t);
      OnlySpaceRefl(ram, tree, kinds, base, t);
      CurrentAllocated();
      CurrentRoot(ram, tree, kinds, base, tasks, appLoads, cr3, kernelRoot);
      NoSpaceYet(t);
      ImageNodesMore(tree, t, segments);
      var pml4;
      pml4, err := SetupPML4(t, Template);
      if err != Success {
        return;
      }
      NewImage(ram0, tree0, t);
      ImageNodesFirst(tree0, tree, t, pml4);
      assert segments[..0] == [];
      for j := 0 to |segments|
        invariant Valid() && Separated(ram, tree, kinds) && t in kinds && kinds[t].Template? && NotATemplateInUse(kinds, t)
        invariant Root(t) in tree && cr3 == tree[Root(t)]
        invariant OnlySpace(ram0, tree0, kinds0, ram, tree, kinds, base, t)
        invariant err == Success && appLoads == old(appLoads) && cr3 == pml4
        invariant ImageLoaded(ram, tree, t, segments[..j]) && ImageNodes(tree, t, segments[..j])
      {
        ghost var ram1, tree1 := ram, tree;
        err := LoadSegment(t, segments[j]);
        ImageNodesStep(tree1, tree, t, segments, j);
        OnlySpaceJoins(ram0, tree0, kinds0, ram1, tree1, kinds, ram, tree, kinds, base, t);
        if err != Success {
          RootInRam(t);
          RootsKept(ram0, tree0, kinds0, ram, tree, kinds, base, t, tasks, appLoads, old(cr3), kernelRoot, tasks, appLoads, cr3);
          return;
        }
        NextSegment(ram1, tree1, ram, tree, t, segments, j);
      }
      assert segments[..|segments|] == segments;
      appLoads := appLoads[t := pml4];
      RootInRam(t);
      RootsKept(ram0, tree0, kinds0, ram, tree, kinds, base, t, tasks, old(appLoads), old(cr3), kernelRoot, tasks, appLoads, cr3);
    }

    lemma NoSpaceYet(t: nat)
      requires Valid() && t !in kinds
      ensures NotATemplateInUse(kinds, t) && forall v: nat :: Leaf(ram, tree, t, v) == None
      ensures ImageNodes(tree, t, [])
    {
      hide Shape, Allocator, Accounted;
      NoNodesYet(ram, tree, kinds, t);
      AppIsNoTemplate(ram, tree, kinds, t);
    }

    lemma NewImage(ram0: Ram, tree0: Tree, t: nat)
      requires LeavesKept(ram0, tree0, ram, tree) && forall v: nat :: Leaf(ram0, tree0, t, v) == None
      ensures ImageLoaded(ram, tree, t, [])
    {
      hide Leaf;
      forall q: nat ensures Leaf(ram, tree, t, q) == None {
        LeafKept(ram0, tree0, ram, tree, t, q);
      }
    }

    lemma RootInRam(t: nat)
      requires Valid() && t in kinds && Root(t) in tree
      ensures tree[Root(t)] in tree.Values && tree[Root(t)] < |ram|
    {
      hide Shape, Allocator, Accounted;
      AppRoot(ram, tree, kinds, t);
    }

    /** A user-mode load of word k of page v. */
    method ReadWord(s: nat, causal: nat, k: Index) returns (ok: bool, w: Word)
      requires Inv() && s in tasks && USER_BEGIN <= causal / 4096 < VPN_COUNT
      modifies this`ram, this`tree, this`cr3, memoryManager`used, memoryManager.allocMap
      ensures Inv() && OnlySpace(old(ram), old(tree), kinds, ram, tree, kinds, base, s)
      ensures forall q: nat :: !ok || q != causal / 4096 ==> View(ram, tree, s, q) == View(old(ram), old(tree), s, q)
      ensures ok ==>
        && View(ram, tree, s, causal / 4096).Some? && w == View(ram, tree, s, causal / 4096).value[k]
        && View(ram, tree, s, causal / 4096) == PageShown(old(ram), old(tree), s, tasks[s], files, causal / 4096)
      ensures !ok ==> Full() || PageShown(old(ram), old(tree), s, tasks[s], files, causal / 4096) == None
      ensures Added(old(tree), tree, s, causal / 4096, causal / 4096 + 1)
    {
      hide Added, Full, Valid, Separated, OnlySpace, Roots, Leaf, View, Served, Walk, Shape;
      var v := causal / 4096;
      OnlySpaceRefl(ram, tree, kinds, base, s);
      AddedNone(tree, s, v, v + 1);
      SwitchTo(s);
      WalkOf(s, v);
      SeenIffMapped(s, v);
      var t := Walk(ram, cr3, 4, v);
      if t.None? {
        var err := HandlePageFault(false, false, true, causal, s, v);
        if err != Success {
          return false, ZERO_WORD;
        }
      }
      WalkOf(s, v);
      t := Walk(ram, cr3, 4, v);
      return true, ram[t.value.frame][k];
    }

    lemma CurrentAllocated()
      requires Inv()
      ensures cr3 in memoryManager.used && base !! tree.Values
    {
      hide Shape, Separated, Allocator;
    }

    lemma SeenIffMapped(s: nat, v: nat)
      requires Valid()
      ensures View(ram, tree, s, v).Some? <==> Leaf(ram, tree, s, v).Some?
    {
      MappedIsSeen(ram, tree, kinds, s, v);
    }

    lemma SharedWhenReadOnly(s: nat, v: nat)
      requires Valid() && Separated(ram, tree, kinds) && s in kinds && kinds[s].App?
      requires Leaf(ram, tree, s, v).Some? && !Leaf(ram, tree, s, v).value.writable
      ensures Shared(ram, tree, s, v)
    {}

    lemma KernelFrames()
      requires Valid()
      ensures base !! tree.Values
    {}
  }

  /** Space t sees what it saw, with the segment's pages added where missing and the words stored. */
  ghost predicate WordsLoaded(ram: Ram, tree: Tree, ram': Ram, tree': Tree, t: nat, v: nat, pages: nat, words: seq<(nat, Index, Word)>) {
    forall q: nat :: View(ram', tree', t, q) == LoadedPage(View(ram, tree, t, q), v, pages, words, q)
  }

  ghost predicate ImageLoaded(ram: Ram, tree: Tree, t: nat, segments: seq<Segment>) {
    forall q: nat :: View(ram, tree, t, q) == ImagePage(segments, q)
  }

  lemma NoWordsYet(ram: Ram, tree: Tree, ram': Ram, tree': Tree, t: nat, v: nat, pages: nat)
    requires PagesProvided(ram, tree, ram', tree', t, v, v + pages)
    ensures WordsLoaded(ram, tree, ram', tree', t, v, pages, [])
  {
    hide View;
    forall q: nat ensures View(ram', tree', t, q) == LoadedPage(View(ram, tree, t, q), v, pages, [], q) {
      assert PageProvided(View(ram, tree, t, q), View(ram', tree', t, q), v <= q < v + pages);
      if View(ram, tree, t, q).None? && v <= q < v + pages {
        assert View(ram', tree', t, q).value == ZeroFrame();
      }
    }
  }

  lemma NextWord(ram0: Ram, tree0: Tree, ram1: Ram, ram2: Ram, tree: Tree, t: nat, v: nat, pages: nat,
                 words: seq<(nat, Index, Word)>, j: nat)
    requires j < |words| && v <= words[j].0 < v + pages
    requires WordsLoaded(ram0, tree0, ram1, tree, t, v, pages, words[..j])
    requires View(ram1, tree, t, words[j].0).Some?
    requires View(ram2, tree, t, words[j].0) == Some(View(ram1, tree, t, words[j].0).value[words[j].1 := words[j].2])
    requires forall q: nat :: q != words[j].0 ==> View(ram2, tree, t, q) == View(ram1, tree, t, q)
    ensures WordsLoaded(ram0, tree0, ram2, tree, t, v, pages, words[..j + 1])
  {
    hide View;
    assert words[..j + 1][..j] == words[..j];
    forall q: nat ensures View(ram2, tree, t, q) == LoadedPage(View(ram0, tree0, t, q), v, pages, words[..j + 1], q) {
      assert View(ram1, tree, t, q) == LoadedPage(View(ram0, tree0, t, q), v, pages, words[..j], q);
    }
  }

  lemma NextSegment(ram: Ram, tree: Tree, ram': Ram, tree': Tree, t: nat, segments: seq<Segment>, j: nat)
    requires j < |segments| && ImageLoaded(ram, tree, t, segments[..j])
    requires WordsLoaded(ram, tree, ram', tree', t, segments[j].addr.Vpn(), segments[j].pages, segments[j].words)
    ensures ImageLoaded(ram', tree', t, segments[..j + 1])
  {
    hide View, LoadedPage;
    assert segments[..j + 1][..j] == segments[..j];
  }

  lemma TaskIsNoLoad(ram: Ram, tree: Tree, kinds: Kinds, base: set<nat>, tasks: map<nat, TaskMemory>,
                     appLoads: map<nat, nat>, cr3: nat, kernelRoot: nat, s: nat)
    requires RootsOk(ram, tree, kinds, base, tasks, appLoads, cr3, kernelRoot) && s in tasks
    ensures s !in appLoads && TaskOk(tree, kinds, s, tasks[s]) && kernelRoot < |ram|
  {
    assert TaskOk(tree, kinds, s, tasks[s]);
  }

  lemma SameRoots(ram: Ram, ram': Ram, tree: Tree, kinds: Kinds, base: set<nat>, tasks: map<nat, TaskMemory>,
                  appLoads: map<nat, nat>, cr3: nat, kernelRoot: nat)
    requires RootsOk(ram, tree, kinds, base, tasks, appLoads, cr3, kernelRoot) && |ram'| == |ram|
    ensures RootsOk(ram', tree, kinds, base, tasks, appLoads, cr3, kernelRoot)
  {}

  lemma SameWord(f: Frame, k: Index, w: Word)
    ensures f[k := w] == f <==> f[k] == w
  {}

  lemma LocalViews(ram: Ram, tree: Tree, kinds: Kinds, ram': Ram, tree': Tree, base: set<nat>, s: nat)
    requires OnlySpace(ram, tree, kinds, ram', tree', kinds, base, s)
    ensures OthersSeeTheSame(ram, tree, ram', tree', s)
  {
    hide View, Leaf;
  }

  /** The nodes that are new belong to s and to the pages lo to hi. */
  ghost predicate Added(tree: Tree, tree': Tree, s: nat, lo: nat, hi: nat) {
    forall n :: n in tree' && n !in tree ==> NewNode(n, s, 4, lo, hi)
  }

  lemma AddedNone(tree: Tree, s: nat, lo: nat, hi: nat)
    ensures Added(tree, tree, s, lo, hi)
  {}

  lemma AddedPage(tree: Tree, tree': Tree, s: nat, v: nat, f: nat)
    requires tree' == tree[Node(s, 0, v) := f]
    ensures Added(tree, tree', s, v, v + 1)
  {}

  lemma AddedWider(tree: Tree, tree': Tree, s: nat, lo: nat, hi: nat, lo': nat, hi': nat)
    requires Added(tree, tree', s, lo, hi) && lo' <= lo && hi <= hi'
    ensures Added(tree, tree', s, lo', hi')
  {
    forall n | n in tree' && n !in tree ensures NewNode(n, s, 4, lo', hi') {
      assert NewNode(n, s, 4, lo, hi);
      PrefixMonotone(lo', lo, n.level);
      PrefixMonotone(hi - 1, hi' - 1, n.level);
    }
  }

  /** The nodes of an application at its start: tables that mirror the image's, and what its
      stack and argument pages take. */
  ghost predicate StartNodes(tree: Tree, tree': Tree, d: nat, t: nat) {
    forall n :: n in tree' && n !in tree ==>
      || n == Root(d) || (n.space == d && n.level >= 1 && Node(t, n.level, n.prefix) in tree)
      || NewNode(n, d, 4, STACK_BEGIN, VPN_COUNT)
  }

  lemma StartMirrors(tree: Tree, tree': Tree, d: nat, t: nat)
    requires MirrorsOrRoot(tree, tree', d, t)
    ensures StartNodes(tree, tree', d, t)
  {}

  lemma StartNodesStep(tree: Tree, tree1: Tree, tree2: Tree, d: nat, t: nat)
    requires StartNodes(tree, tree1, d, t) && Added(tree1, tree2, d, STACK_BEGIN, VPN_COUNT)
    ensures StartNodes(tree, tree2, d, t)
  {}

  /** The nodes of an image: its root, and what its segments' pages take. */
  ghost predicate ImageNodes(tree: Tree, t: nat, segments: seq<Segment>) {
    forall n :: n in tree && n.space == t ==> n == Root(t) || InSegments(n, t, segments)
  }

  ghost predicate InSegments(n: Node, t: nat, segments: seq<Segment>) {
    exists j :: 0 <= j < |segments| && NewNode(n, t, 4, segments[j].addr.Vpn(), segments[j].addr.Vpn() + segments[j].pages)
  }

  lemma ImageNodesStep(tree: Tree, tree': Tree, t: nat, segments: seq<Segment>, j: nat)
    requires j < |segments| && ImageNodes(tree, t, segments[..j])
    requires Added(tree, tree', t, segments[j].addr.Vpn(), segments[j].addr.Vpn() + segments[j].pages)
    ensures ImageNodes(tree', t, segments[..j + 1]) && ImageNodes(tree', t, segments)
  {
    hide NewNode, LinearAddress4Level.Vpn;
    forall n | n in tree' && n.space == t && n != Root(t) ensures InSegments(n, t, segments[..j + 1]) && InSegments(n, t, segments) {
      if n in tree {
        var i :| 0 <= i < j && NewNode(n, t, 4, segments[..j][i].addr.Vpn(), segments[..j][i].addr.Vpn() + segments[..j][i].pages);
        assert segments[..j + 1][i] == segments[..j][i] == segments[i];
      } else {
        assert segments[..j + 1][j] == segments[j];
        assert NewNode(n, t, 4, segments[j].addr.Vpn(), segments[j].addr.Vpn() + segments[j].pages);
      }
    }
  }

  lemma ImageNodesFirst(tree: Tree, tree': Tree, t: nat, f: nat)
    requires ImageNodes(tree, t, []) && tree' == tree[Root(t) := f]
    ensures ImageNodes(tree', t, [])
  {}

  lemma ImageNodesMore(tree: Tree, t: nat, segments: seq<Segment>)
    requires ImageNodes(tree, t, [])
    ensures ImageNodes(tree, t, segments)
  {}

  lemma AddedBySetUp(ram: Ram, tree: Tree, ram': Ram, tree': Tree, s: nat, lo: nat, mid: nat, hi: nat, w: bool)
    requires SetUp(ram, tree, ram', tree', s, 4, lo, mid, hi, w)
    ensures Added(tree, tree', s, lo, hi)
  {}

  /** The nodes that are new are tables of d where t has one too. */
  ghost predicate Mirrors(tree: Tree, tree': Tree, d: nat, t: nat) {
    && Grows(tree, tree')
    && forall n :: n in tree' && n !in tree ==> n.space == d && n.level >= 1 && Node(t, n.level, n.prefix) in tree
  }

  ghost predicate MirrorsOrRoot(tree: Tree, tree': Tree, d: nat, t: nat) {
    forall n :: n in tree' && n !in tree ==> n == Root(d) || (n.space == d && n.level >= 1 && Node(t, n.level, n.prefix) in tree)
  }

  lemma MirrorsNothing(tree: Tree, d: nat, t: nat)
    ensures Mirrors(tree, tree, d, t) && MirrorsOrRoot(tree, tree, d, t)
  {}

  lemma MirrorsOne(ram: Ram, tree: Tree, ram': Ram, tree': Tree, d: nat, t: nat, top: nat, lo: nat, hi: nat, level: nat, p: nat, f: nat)
    requires Extends(ram, tree, ram', tree', d, top, lo, hi)
    requires level >= 1 && Node(t, level, p) in tree && tree' == tree[Node(d, level, p) := f]
    ensures Mirrors(tree, tree', d, t)
  {}

  lemma MirrorsTwice(tree: Tree, tree1: Tree, tree2: Tree, d: nat, t: nat)
    requires Mirrors(tree, tree1, d, t) && Mirrors(tree1, tree2, d, t) && d != t
    ensures Mirrors(tree, tree2, d, t)
  {}

  lemma MirrorsAfterRoot(tree: Tree, tree1: Tree, tree2: Tree, d: nat, t: nat, f: nat)
    requires tree1 == tree[Root(d) := f] && Mirrors(tree1, tree2, d, t) && d != t
    ensures MirrorsOrRoot(tree, tree2, d, t)
  {}

  lemma OnlySpaceRefl(ram: Ram, tree: Tree, kinds: Kinds, base: set<nat>, s: nat)
    ensures OnlySpace(ram, tree, kinds, ram, tree, kinds, base, s)
  {}

  lemma LeafInTable(ram: Ram, tree: Tree, kinds: Kinds, s: nat, v: nat)
    requires Shape(ram, tree, kinds) && Leaf(ram, tree, s, v).Some?
    ensures var n := Node(s, 1, v / 512);
      n in tree && tree[n] < |ram| && Leaf(ram, tree, s, v) == Some(ram[tree[n]][v % 512])
    ensures Prefix(v, 1) == v / 512 && Prefix(v, 0) == v
  {}

  /** Above a mapped page, every entry leads to the next table. */
  lemma EntryAbove(ram: Ram, tree: Tree, kinds: Kinds, s: nat, v: nat, level: nat)
    requires Shape(ram, tree, kinds) && Leaf(ram, tree, s, v).Some? && 2 <= level <= 4 && USER_BEGIN <= v < VPN_COUNT
    requires Node(s, level, Prefix(v, level)) in tree
    ensures var n, c := Node(s, level, Prefix(v, level)), Node(s, level - 1, Prefix(v, level - 1));
      && c in tree && tree[n] < |ram| && ram[tree[n]][Prefix(v, level - 1) % 512].addr == tree[c]
  {
    var n, c := Node(s, level, Prefix(v, level)), Node(s, level - 1, Prefix(v, level - 1));
    LeafInTable(ram, tree, kinds, s, v);
    ShapeAncestor(ram, tree, kinds, s, v, 1, level - 1);
    Halves(v);
    EntryAt(ram, tree, kinds, n, Prefix(v, level - 1) % 512);
    assert Child(n, Prefix(v, level - 1) % 512) == c;
  }

  /** With a fresh frame p at hand, the walk still finds the page to copy from. */
  lemma CopySource(ram: Ram, tree: Tree, kinds: Kinds, s: nat, v: nat, p: nat, ram': Ram)
    requires Shape(ram, tree, kinds) && Leaf(ram, tree, s, v).Some? && Root(s) in tree && USER_BEGIN <= v < VPN_COUNT
    requires p < |ram| && p !in tree.Values && |ram'| == |ram| && ram' == ram[p := ram'[p]]
    ensures Shape(ram', tree, kinds) && Leaf(ram', tree, s, v) == Leaf(ram, tree, s, v)
    ensures var f := Leaf(ram, tree, s, v).value.addr;
      f < |ram| && ram'[f] == ram[f] && Walk(ram', tree[Root(s)], 4, v).Some? && Walk(ram', tree[Root(s)], 4, v).value.frame == f
  {
    OutsideKeepsShape(ram, tree, kinds, p, ram'[p]);
    LeafHolder(ram, tree, kinds, s, v);
    assert tree[Holder(tree, kinds, s, v)] in tree.Values;
    hide Shape, Leaf;
    Halves(v);
    WalkFindsLeaf(ram', tree, kinds, s, 4, v);
  }

  lemma SetUpPages(ram: Ram, tree: Tree, ram': Ram, tree': Tree, s: nat, top: nat, lo: nat, mid: nat, hi: nat, w: bool)
    requires SetUp(ram, tree, ram', tree', s, top, lo, mid, hi, w)
    ensures PagesSet(ram, tree, ram', tree', s, lo, mid, w)
  {}

  lemma NotShared(ram: Ram, tree: Tree, s: nat, v: nat)
    requires Leaf(ram, tree, s, v).None?
    ensures !Shared(ram, tree, s, v)
  {}

  lemma ProvidedOne(ram: Ram, tree: Tree, ram': Ram, tree': Tree, s: nat, v: nat, done: nat)
    requires PagesProvided(ram, tree, ram', tree', s, v, v + done) && done <= 1 && View(ram, tree, s, v).None?
    ensures forall q: nat :: q != v || done == 0 ==> View(ram', tree', s, q) == View(ram, tree, s, q)
    ensures done == 1 ==> View(ram', tree', s, v).Some? && Zeroed(View(ram', tree', s, v).value)
  {
    hide View;
    forall q: nat ensures q != v || done == 0 ==> View(ram', tree', s, q) == View(ram, tree, s, q) {
      assert PageProvided(View(ram, tree, s, q), View(ram', tree', s, q), v <= q < v + done);
    }
    assert PageProvided(View(ram, tree, s, v), View(ram', tree', s, v), v <= v < v + done);
  }

  lemma SetPage(ram: Ram, tree: Tree, ram': Ram, tree': Tree, s: nat, v: nat)
    requires PagesSet(ram, tree, ram', tree', s, v, v + 1, true) && Leaf(ram, tree, s, v).None?
    ensures Leaf(ram', tree', s, v).Some? && Leaf(ram', tree', s, v).value.writable && Node(s, 0, v) in tree'
  {
    hide Leaf;
    assert PageSet(Leaf(ram, tree, s, v), Leaf(ram', tree', s, v), tree, tree', Node(s, 0, v), true);
  }

  lemma CurrentRoot(ram: Ram, tree: Tree, kinds: Kinds, base: set<nat>, tasks: map<nat, TaskMemory>,
                    appLoads: map<nat, nat>, cr3: nat, kernelRoot: nat)
    requires RootsOk(ram, tree, kinds, base, tasks, appLoads, cr3, kernelRoot)
    ensures (cr3 == kernelRoot || cr3 in tree.Values) && cr3 < |ram|
  {}

  /** What the fault handler finds for an address is what its page is served. */
  lemma ServedIs(t: TaskMemory, files: Files, causal: nat, q: nat)
    requires AreasOk(t) && q == causal / 4096
    ensures Served(t, files, q) ==
      if InHeap(t, causal) then Some(ZeroFrame())
      else
        match FirstMapping(t.fileMaps, causal)
        case None => None
        case Some(m) => if m.vaddrBegin <= q * 4096 then Some(FilePage(Content(files, m.file), q * 4096 - m.vaddrBegin)) else None
    ensures FirstMapping(t.fileMaps, causal).Some? ==> FirstMapping(t.fileMaps, causal).value.vaddrBegin <= q * 4096
  {
    hide FilePage;
    ServedAt(t, causal);
  }

  lemma FileAreas(t: TaskMemory, file: nat, size: nat)
    requires AreasOk(t) && size <= t.fileMapEnd
    ensures AreasOk(WithFile(t, file, size))
  {}

  lemma LoadOf(ram: Ram, tree: Tree, kinds: Kinds, base: set<nat>, tasks: map<nat, TaskMemory>,
               appLoads: map<nat, nat>, cr3: nat, kernelRoot: nat, t: nat)
    requires RootsOk(ram, tree, kinds, base, tasks, appLoads, cr3, kernelRoot) && t in appLoads
    ensures LoadOk(tree, kinds, t, appLoads[t])
  {}

  lemma UnknownTask(ram: Ram, tree: Tree, kinds: Kinds, base: set<nat>, tasks: map<nat, TaskMemory>,
                    appLoads: map<nat, nat>, cr3: nat, kernelRoot: nat, d: nat)
    requires RootsOk(ram, tree, kinds, base, tasks, appLoads, cr3, kernelRoot) && d !in kinds
    ensures d !in tasks && d !in appLoads
  {
    hide AreasOk;
    assert d in tasks ==> TaskOk(tree, kinds, d, tasks[d]);
    assert d in appLoads ==> LoadOk(tree, kinds, d, appLoads[d]);
  }

  lemma OtherRoot(ram: Ram, tree: Tree, kinds: Kinds, ram': Ram, tree': Tree, kinds': Kinds, base: set<nat>, s: nat, t: nat)
    requires OnlySpace(ram, tree, kinds, ram', tree', kinds', base, s) && t != s && t in kinds && Root(t) in tree
    ensures t in kinds' && kinds'[t] == kinds[t] && Root(t) in tree' && tree'[Root(t)] == tree[Root(t)]
  {}

  lemma WholeHalf()
    ensures First(256, 3) == USER_BEGIN && First(1, 4) == VPN_COUNT
  {
    assert First(1, 4) == First(512, 3) == First(512 * 512, 2) == First(512 * 512 * 512, 1) == First(VPN_COUNT, 0);
    assert First(256, 3) == First(256 * 512, 2) == First(256 * 512 * 512, 1) == First(USER_BEGIN, 0);
  }

  /** After the template's page maps were copied into the fresh space d. */
  lemma CopyDone(ram0: Ram, tree0: Tree, ram1: Ram, tree1: Tree, ram: Ram, tree: Tree, kinds0: Kinds, kinds: Kinds,
                 d: nat, t: nat, upto: nat, base: set<nat>)
    requires Shape(ram1, tree1, kinds) && Separated(ram1, tree1, kinds) && d in kinds && kinds[d] == App(t) && d != t
    requires OnlySpace(ram0, tree0, kinds0, ram1, tree1, kinds, base, d)
    requires forall n: Node :: n.space == d ==> n in tree1 ==> n == Root(d)
    requires Shape(ram, tree, kinds) && Copied(ram1, tree1, ram, tree, d, t, 4, USER_BEGIN, upto, VPN_COUNT) && base !! tree.Values
    ensures Separated(ram, tree, kinds) && OnlySpace(ram1, tree1, kinds, ram, tree, kinds, base, d)
    ensures OnlySpace(ram0, tree0, kinds0, ram, tree, kinds, base, d)
    ensures forall q: nat :: USER_BEGIN <= q < upto ==>
      View(ram, tree, d, q) == View(ram0, tree0, t, q) && Leaf(ram, tree, d, q) == AsShared(Leaf(ram0, tree0, t, q))
  {
    hide Leaf, View, Shape, Separated;
    CopiedSeparated(ram1, tree1, ram, tree, kinds, d, t, USER_BEGIN, upto);
    AppIsNoTemplate(ram1, tree1, kinds, d);
    CopiedIsLocal(ram1, tree1, kinds, ram, tree, base, d, t, 4, USER_BEGIN, upto, VPN_COUNT);
    OnlySpaceJoins(ram0, tree0, kinds0, ram1, tree1, kinds, ram, tree, kinds, base, d);
    forall q: nat | USER_BEGIN <= q < upto
      ensures View(ram, tree, d, q) == View(ram0, tree0, t, q) && Leaf(ram, tree, d, q) == AsShared(Leaf(ram0, tree0, t, q))
    {
      CopiedView(ram1, tree1, kinds, ram, tree, d, t, 4, USER_BEGIN, upto, VPN_COUNT, q);
      assert View(ram1, tree1, t, q) == View(ram0, tree0, t, q);
      assert Leaf(ram, tree, d, q) == AsShared(Leaf(ram1, tree1, t, q));
    }
  }

  /** The fresh application sees the image's memory, and zeroes in the rest of its stack and argument page. */
  ghost predicate StartedFrom(ram: Ram, tree: Tree, ram': Ram, tree': Tree, d: nat, t: nat) {
    forall q: nat :: USER_BEGIN <= q < VPN_COUNT ==> View(ram', tree', d, q) == StartPage(View(ram, tree, t, q), q)
  }

  /** What an application's page q holds at its start. */
  function StartPage(image: Option<Frame>, q: nat): Option<Frame> {
    if image.None? && STACK_BEGIN <= q < VPN_COUNT then Some(ZeroFrame()) else image
  }

  lemma AsTemplate(ram: Ram, tree: Tree, ram': Ram, tree': Tree, d: nat, t: nat)
    requires forall q: nat :: USER_BEGIN <= q < VPN_COUNT ==>
      View(ram', tree', d, q) == View(ram, tree, t, q) && Leaf(ram', tree', d, q) == AsShared(Leaf(ram, tree, t, q))
    ensures SameAsTemplate(ram, tree, ram', tree', d, t)
  {}

  /** d maps what t mapped before. */
  ghost predicate SameAsTemplate(ram: Ram, tree: Tree, ram': Ram, tree': Tree, d: nat, t: nat) {
    forall q: nat :: USER_BEGIN <= q < VPN_COUNT ==>
      View(ram', tree', d, q) == View(ram, tree, t, q) && Leaf(ram', tree', d, q) == AsShared(Leaf(ram, tree, t, q))
  }

  lemma NotYetShared(ram: Ram, tree: Tree, ram': Ram, tree': Tree, d: nat, t: nat, lo: nat, hi: nat)
    requires SameAsTemplate(ram, tree, ram', tree', d, t) && ClearFrom(ram, tree, t, STACK_BEGIN)
    requires STACK_BEGIN <= lo && hi <= VPN_COUNT
    ensures NoneShared(ram', tree', d, lo, hi) && forall v: nat :: lo <= v < hi ==> Leaf(ram', tree', d, v) == None
  {
    hide Leaf, View;
    forall v: nat | lo <= v < hi ensures Leaf(ram', tree', d, v) == None && !Shared(ram', tree', d, v) {
      assert Leaf(ram', tree', d, v) == AsShared(Leaf(ram, tree, t, v));
    }
  }

  lemma StackNotShared(ram: Ram, tree: Tree, ram1: Ram, tree1: Tree, ram2: Ram, tree2: Tree, d: nat, t: nat)
    requires SameAsTemplate(ram, tree, ram1, tree1, d, t) && ClearFrom(ram, tree, t, STACK_BEGIN)
    requires PagesSet(ram1, tree1, ram2, tree2, d, ARGS_PAGE, ARGS_PAGE + 1, true)
    ensures NoneShared(ram2, tree2, d, STACK_BEGIN, STACK_BEGIN + STACK_PAGES)
  {
    hide Leaf, View;
    NotYetShared(ram, tree, ram1, tree1, d, t, STACK_BEGIN, ARGS_PAGE);
    forall v: nat | STACK_BEGIN <= v < STACK_BEGIN + STACK_PAGES ensures !Shared(ram2, tree2, d, v) {
      assert PageKept(ram1, tree1, ram2, tree2, d, v);
    }
  }

  lemma NoPages(ram: Ram, tree: Tree, s: nat, v: nat)
    ensures NoneShared(ram, tree, s, v, v)
  {}

  lemma FewerShared(ram: Ram, tree: Tree, s: nat, lo: nat, mid: nat, hi: nat)
    requires mid <= hi
    ensures NoneShared(ram, tree, s, lo, hi) ==> NoneShared(ram, tree, s, lo, mid)
  {}

  lemma LaunchDone(ram: Ram, tree: Tree, ram1: Ram, tree1: Tree, ram2: Ram, tree2: Tree, ram3: Ram, tree3: Tree, d: nat, t: nat)
    requires SameAsTemplate(ram, tree, ram1, tree1, d, t)
    requires PagesProvided(ram1, tree1, ram2, tree2, d, ARGS_PAGE, ARGS_PAGE + 1)
    requires PagesProvided(ram2, tree2, ram3, tree3, d, STACK_BEGIN, STACK_BEGIN + STACK_PAGES)
    ensures StartedFrom(ram, tree, ram3, tree3, d, t)
  {
    hide Leaf, View;
    forall q: nat | USER_BEGIN <= q < VPN_COUNT ensures View(ram3, tree3, d, q) == StartPage(View(ram, tree, t, q), q) {
      assert View(ram1, tree1, d, q) == View(ram, tree, t, q);
      assert PageProvided(View(ram1, tree1, d, q), View(ram2, tree2, d, q), ARGS_PAGE <= q < ARGS_PAGE + 1);
      assert PageProvided(View(ram2, tree2, d, q), View(ram3, tree3, d, q), STACK_BEGIN <= q < STACK_BEGIN + STACK_PAGES);
      if View(ram3, tree3, d, q).Some? { ZeroedIs(View(ram3, tree3, d, q).value); }
      if View(ram2, tree2, d, q).Some? { ZeroedIs(View(ram2, tree2, d, q).value); }
    }
  }

  /** Page v of s is the template's and may be written. */
  ghost predicate WritesThrough(ram: Ram, tree: Tree, s: nat, v: nat) {
    Shared(ram, tree, s, v) && Leaf(ram, tree, s, v).value.writable
  }

  /** A page that was shared and is now writable is not the application's own. */
  lemma SharedMadeWritable(ram: Ram, tree: Tree, ram': Ram, tree': Tree, kinds: Kinds, s: nat, v: nat)
    requires Shared(ram, tree, s, v) && PageSet(Leaf(ram, tree, s, v), Leaf(ram', tree', s, v), tree, tree', Node(s, 0, v), true)
    ensures !Separated(ram', tree', kinds) && WritesThrough(ram', tree', s, v)
  {
    hide Leaf;
  }

  lemma StillNotSeparated(ram: Ram, tree: Tree, ram': Ram, tree': Tree, kinds: Kinds, s: nat, v: nat)
    requires PageKept(ram, tree, ram', tree', s, v)
    requires WritesThrough(ram, tree, s, v)
    ensures !Separated(ram', tree', kinds) && WritesThrough(ram', tree', s, v)
  {
    hide Leaf;
  }

  lemma LaunchSeparated(ram: Ram, tree: Tree, ram1: Ram, tree1: Tree, ram2: Ram, tree2: Tree, ram3: Ram, tree3: Tree,
                        kinds: Kinds, d: nat, t: nat)
    requires SameAsTemplate(ram, tree, ram1, tree1, d, t) && Separated(ram1, tree1, kinds) && d in kinds && kinds[d].App?
    requires PagesSet(ram1, tree1, ram2, tree2, d, ARGS_PAGE, ARGS_PAGE + 1, true)
    requires PagesSet(ram2, tree2, ram3, tree3, d, STACK_BEGIN, STACK_BEGIN + STACK_PAGES, true)
    ensures Separated(ram3, tree3, kinds) <==> ClearFrom(ram, tree, t, STACK_BEGIN)
    ensures forall q: nat :: STACK_BEGIN <= q < VPN_COUNT && Leaf(ram, tree, t, q).Some? ==> WritesThrough(ram3, tree3, d, q)
  {
    hide Leaf, View, PagesSet, Separated;
    if ClearFrom(ram, tree, t, STACK_BEGIN) {
      NotYetShared(ram, tree, ram1, tree1, d, t, ARGS_PAGE, VPN_COUNT);
      StackNotShared(ram, tree, ram1, tree1, ram2, tree2, d, t);
      SetUpSeparated(ram1, tree1, ram2, tree2, kinds, d, ARGS_PAGE, ARGS_PAGE + 1, true);
      SetUpSeparated(ram2, tree2, ram3, tree3, kinds, d, STACK_BEGIN, STACK_BEGIN + STACK_PAGES, true);
    }
    forall q: nat | STACK_BEGIN <= q < VPN_COUNT && Leaf(ram, tree, t, q).Some?
      ensures WritesThrough(ram3, tree3, d, q) && !Separated(ram3, tree3, kinds)
    {
      assert Leaf(ram1, tree1, d, q) == AsShared(Leaf(ram, tree, t, q));
      ReadOnlyShared(ram1, tree1, kinds, d, q);
      SetAt(ram1, tree1, ram2, tree2, d, ARGS_PAGE, ARGS_PAGE + 1, q);
      SetAt(ram2, tree2, ram3, tree3, d, STACK_BEGIN, STACK_BEGIN + STACK_PAGES, q);
      if q == ARGS_PAGE {
        SharedMadeWritable(ram1, tree1, ram2, tree2, kinds, d, q);
        StillNotSeparated(ram2, tree2, ram3, tree3, kinds, d, q);
      } else {
        SharedMadeWritable(ram2, tree2, ram3, tree3, kinds, d, q);
      }
    }
  }

  lemma SetAt(ram: Ram, tree: Tree, ram': Ram, tree': Tree, s: nat, lo: nat, hi: nat, q: nat)
    requires PagesSet(ram, tree, ram', tree', s, lo, hi, true)
    ensures if lo <= q < hi then PageSet(Leaf(ram, tree, s, q), Leaf(ram', tree', s, q), tree, tree', Node(s, 0, q), true)
            else PageKept(ram, tree, ram', tree', s, q)
  {
    hide Leaf;
  }

  lemma ReadOnlyShared(ram: Ram, tree: Tree, kinds: Kinds, s: nat, v: nat)
    requires Separated(ram, tree, kinds) && s in kinds && kinds[s].App?
    requires Leaf(ram, tree, s, v).Some? && !Leaf(ram, tree, s, v).value.writable
    ensures Shared(ram, tree, s, v)
  {
    hide Leaf;
  }

  /** What space r maps and sees is as before. */
  ghost predicate SpaceKept(ram: Ram, tree: Tree, kinds: Kinds, ram': Ram, tree': Tree, kinds': Kinds, r: nat) {
    && (forall q: nat :: View(ram', tree', r, q) == View(ram, tree, r, q))
    && (forall q: nat :: Leaf(ram', tree', r, q) == Leaf(ram, tree, r, q))
    && (forall n: Node :: n.space == r ==> (n in tree' <==> n in tree) && (n in tree' ==> tree'[n] == tree[n]))
    && (r in kinds' <==> r in kinds) && (r in kinds' ==> kinds'[r] == kinds[r])
  }

  lemma KeptByStep(ram: Ram, tree: Tree, kinds: Kinds, ram1: Ram, tree1: Tree, kinds1: Kinds, ram2: Ram, tree2: Tree, kinds2: Kinds,
                   base: set<nat>, s: nat, r: nat)
    requires SpaceKept(ram, tree, kinds, ram1, tree1, kinds1, r) && r != s
    requires OnlySpace(ram1, tree1, kinds1, ram2, tree2, kinds2, base, s)
    ensures SpaceKept(ram, tree, kinds, ram2, tree2, kinds2, r)
  {
    hide View, Leaf;
    forall q: nat ensures View(ram2, tree2, r, q) == View(ram, tree, r, q) && Leaf(ram2, tree2, r, q) == Leaf(ram, tree, r, q) {
      assert View(ram2, tree2, r, q) == View(ram1, tree1, r, q);
      assert Leaf(ram2, tree2, r, q) == Leaf(ram1, tree1, r, q);
    }
  }

  lemma KeptAtFirst(ram: Ram, tree: Tree, kinds: Kinds)
    ensures forall r: nat :: SpaceKept(ram, tree, kinds, ram, tree, kinds, r)
  {}

  lemma GoneOrKept(ram: Ram, tree: Tree, kinds: Kinds, ram': Ram, tree': Tree, kinds': Kinds, n: Node)
    requires Shape(ram, tree, kinds) && Shape(ram', tree', kinds')
    requires SpaceKept(ram, tree, kinds, ram', tree', kinds', n.space) || (n.space !in kinds && n.space !in kinds')
    ensures (n in tree' <==> n in tree) && (n in tree' ==> tree'[n] == tree[n])
  {
    hide Leaf, View;
    if n.space !in kinds && n.space !in kinds' {
      NoNodesYet(ram, tree, kinds, n.space);
      NoNodesYet(ram', tree', kinds', n.space);
    }
  }

  /** When the spaces that acted existed neither before nor after, the nodes are the same. */
  lemma AllGone(ram: Ram, tree: Tree, kinds: Kinds, ram': Ram, tree': Tree, kinds': Kinds, actors: set<nat>)
    requires Shape(ram, tree, kinds) && Shape(ram', tree', kinds')
    requires forall r: nat :: r !in actors ==> SpaceKept(ram, tree, kinds, ram', tree', kinds', r)
    requires forall r :: r in actors ==> r !in kinds && r !in kinds'
    ensures tree' == tree
  {
    hide Shape, SpaceKept;
    forall n: Node ensures (n in tree' <==> n in tree) && (n in tree' ==> tree'[n] == tree[n]) {
      GoneOrKept(ram, tree, kinds, ram', tree', kinds', n);
    }
  }

  lemma SameSize(ram: Ram, tree: Tree, kinds: Kinds, ram': Ram, tree': Tree, kinds': Kinds, base: set<nat>, s: nat)
    requires OnlySpace(ram, tree, kinds, ram', tree', kinds', base, s)
    ensures |ram'| == |ram|
  {}

  /** Tasks and cached images other than s keep their roots when only s changed. */
  lemma RootsKept(ram: Ram, tree: Tree, kinds: Kinds, ram': Ram, tree': Tree, kinds': Kinds, base: set<nat>, s: nat,
                  tasks: map<nat, TaskMemory>, appLoads: map<nat, nat>, cr3: nat, kernelRoot: nat,
                  tasks': map<nat, TaskMemory>, appLoads': map<nat, nat>, cr3': nat)
    requires OnlySpace(ram, tree, kinds, ram', tree', kinds', base, s)
    requires RootsOk(ram, tree, kinds, base, tasks, appLoads, cr3, kernelRoot)
    requires forall r :: r in tasks' && r != s ==> r in tasks && tasks'[r] == tasks[r]
    requires s in tasks' ==> TaskOk(tree', kinds', s, tasks'[s])
    requires forall r :: r in appLoads' && r != s ==> r in appLoads && appLoads'[r] == appLoads[r]
    requires s in appLoads' ==> LoadOk(tree', kinds', s, appLoads'[s])
    requires (cr3' == kernelRoot || cr3' in tree'.Values) && cr3' < |ram'|
    ensures RootsOk(ram', tree', kinds', base, tasks', appLoads', cr3', kernelRoot)
  {
    hide Leaf, View, AreasOk;
    forall t | t in appLoads' ensures LoadOk(tree', kinds', t, appLoads'[t]) {
      if t != s { assert LoadOk(tree, kinds, t, appLoads[t]); }
    }
    forall r | r in tasks' ensures TaskOk(tree', kinds', r, tasks'[r]) {
      if r != s { assert TaskOk(tree, kinds, r, tasks[r]); }
    }
  }

  lemma NewRootShape(ram: Ram, tree: Tree, kinds: Kinds, s: nat, k: Kind, f: nat, ram': Ram, tree': Tree, kinds': Kinds)
    requires Shape(ram, tree, kinds) && s !in kinds && (forall n :: n in tree ==> n.space != s)
    requires k.App? ==> k.template in kinds && kinds[k.template].Template?
    requires f < |ram| && f !in tree.Values && |ram'| == |ram| && ram' == ram[f := ram'[f]]
    requires forall i: Index :: i >= 256 ==> ram'[f][i] == ZERO_WORD
    requires tree' == tree[Root(s) := f] && kinds' == kinds[s := k]
    ensures Shape(ram', tree', kinds') && LeavesKept(ram, tree, ram', tree')
  {
    hide Shape, Leaf;
    OutsideKeepsShape(ram, tree, kinds, f, ram'[f]);
    assert SpaceAdded(ram', tree, kinds, s, k, f, tree', kinds');
    AddSpace(ram', tree, kinds, s, k, f, tree', kinds');
    SameLeafNodes(ram', tree, tree');
    forall r: nat, q: nat ensures Leaf(ram', tree', r, q) == Leaf(ram, tree, r, q) && (Node(r, 0, q) in tree' <==> Node(r, 0, q) in tree) {
      assert PageKept(ram', tree, ram', tree', r, q);
    }
  }

  lemma NewRootSeparated(ram: Ram, tree: Tree, kinds: Kinds, s: nat, k: Kind, ram': Ram, tree': Tree, kinds': Kinds)
    requires Separated(ram, tree, kinds) && LeavesKept(ram, tree, ram', tree')
    requires kinds' == kinds[s := k] && forall v: nat :: Leaf(ram, tree, s, v) == None
    ensures Separated(ram', tree', kinds')
  {
    hide Leaf;
    forall r: nat, q: nat | Leaf(ram', tree', r, q).Some?
      ensures Leaf(ram', tree', r, q).value.writable <==> r in kinds' && kinds'[r].App? && Node(r, 0, q) in tree'
    {
      assert PageKept(ram, tree, ram', tree', r, q);
    }
  }

  lemma NewRootIsLocal(ram: Ram, tree: Tree, kinds: Kinds, s: nat, k: Kind, f: nat, ram': Ram, tree': Tree, kinds': Kinds, base: set<nat>)
    requires Shape(ram, tree, kinds) && LeavesKept(ram, tree, ram', tree') && NotATemplateInUse(kinds, s)
    requires f < |ram| && f !in tree.Values && f !in base && |ram'| == |ram| && ram' == ram[f := ram'[f]]
    requires tree' == tree[Root(s) := f] && kinds' == kinds[s := k]
    ensures OnlySpace(ram, tree, kinds, ram', tree', kinds', base, s)
  {
    hide Shape, Leaf;
    forall r: nat, q: nat ensures Leaf(ram', tree', r, q) == Leaf(ram, tree, r, q) {
      LeafKept(ram, tree, ram', tree', r, q);
    }
    assert forall n :: n in tree ==> tree[n] in tree.Values;
    LocalChange(ram, tree, kinds, ram', tree', base, s);
  }

  lemma NewRoot(ram: Ram, tree: Tree, kinds: Kinds, s: nat, k: Kind, f: nat, ram': Ram, tree': Tree, kinds': Kinds, base: set<nat>)
    requires Shape(ram, tree, kinds) && Separated(ram, tree, kinds) && s !in kinds && (forall n :: n in tree ==> n.space != s)
    requires k.App? ==> k.template in kinds && kinds[k.template].Template?
    requires f < |ram| && f !in tree.Values && f !in base && |ram'| == |ram| && ram' == ram[f := ram'[f]]
    requires forall i: Index :: i >= 256 ==> ram'[f][i] == ZERO_WORD
    requires tree' == tree[Root(s) := f] && kinds' == kinds[s := k]
    ensures Shape(ram', tree', kinds') && Separated(ram', tree', kinds') && LeavesKept(ram, tree, ram', tree')
    ensures OnlySpace(ram, tree, kinds, ram', tree', kinds', base, s)
  {
    hide Shape, Leaf, LeavesKept, Separated, OnlySpace;
    NewRootShape(ram, tree, kinds, s, k, f, ram', tree', kinds');
    AppIsNoTemplate(ram, tree, kinds, s);
    NoNodesYet(ram, tree, kinds, s);
    NewRootSeparated(ram, tree, kinds, s, k, ram', tree', kinds');
    NewRootIsLocal(ram, tree, kinds, s, k, f, ram', tree', kinds', base);
  }

  lemma RootGone(ram: Ram, tree: Tree, kinds: Kinds, s: nat, tree': Tree, kinds': Kinds, base: set<nat>)
    requires Shape(ram, tree, kinds) && Separated(ram, tree, kinds) && SpaceRemoved(tree, kinds, s, tree', kinds')
    ensures Separated(ram, tree', kinds') && OnlySpace(ram, tree, kinds, ram, tree', kinds', base, s)
  {
    hide Shape, Leaf;
    AppIsNoTemplate(ram, tree, kinds, s);
    SameLeafNodes(ram, tree, tree');
    forall r: nat, q: nat ensures Leaf(ram, tree', r, q) == Leaf(ram, tree, r, q) && (Node(r, 0, q) in tree' <==> Node(r, 0, q) in tree) {
      assert PageKept(ram, tree, ram, tree', r, q);
    }
    LocalChange(ram, tree, kinds, ram, tree', base, s);
    forall q: nat ensures Leaf(ram, tree', s, q) == None {
      if Leaf(ram, tree', s, q).Some? { LeafTable(ram, tree', s, q); }
    }
  }

  lemma LeafTable(ram: Ram, tree: Tree, s: nat, q: nat)
    requires Leaf(ram, tree, s, q).Some?
    ensures Node(s, 1, q / 512) in tree
  {}

  /** Cleaning a whole upper half leaves only the root. */
  lemma CleanedAll(ram: Ram, tree: Tree, kinds: Kinds, ram': Ram, tree': Tree, s: nat)
    requires Shape(ram, tree, kinds) && Cleaned(ram, tree, ram', tree', s, 4, First(256, 3), First(1, 4))
    ensures forall n :: n in tree' && n.space == s ==> n == Root(s)
  {
    forall n | n in tree' && n.space == s ensures n == Root(s) {
      assert NodeOk(n, tree, kinds);
      if n.level < 4 {
        InUpperHalf(ram, tree, kinds, n);
      }
    }
  }

  lemma InUpperHalf(ram: Ram, tree: Tree, kinds: Kinds, n: Node)
    requires Shape(ram, tree, kinds) && n in tree && n.level < 4
    ensures Below(n, n.space, 4, First(256, 3), First(1, 4))
  {
    var v := First(n.prefix, n.level);
    PrefixOfFirst(n.prefix, n.level);
    ShapeAncestor(ram, tree, kinds, n.space, v, n.level, 3);
    ShapeAncestor(ram, tree, kinds, n.space, v, 3, 4);
    assert NodeOk(Node(n.space, 3, Prefix(v, 3)), tree, kinds) && NodeOk(Node(n.space, 4, Prefix(v, 4)), tree, kinds);
    hide Shape;
    PrefixParent(v, 4);
    PrefixBelow(v, 256, 3);
    PrefixBelow(v, 1, 4);
  }

  /** How many of num pages from v exist before the address space ends. */
  function ToTheEnd(v: nat, num: nat): nat {
    if v >= VPN_COUNT then 0 else if v + num <= VPN_COUNT then num else VPN_COUNT - v
  }

  lemma RootOf(s: nat)
    ensures Root(s) == Node(s, 4, 0)
  {}

  lemma WithinAll(v: nat, num: nat)
    requires v < VPN_COUNT
    ensures Within(v, num, 4) == ToTheEnd(v, num) && Prefix(v, 4) == 0
  {
    Halves(v);
    assert First(1, 4) == First(512, 3) == First(512 * 512, 2) == First(512 * 512 * 512, 1) == First(VPN_COUNT, 0);
  }

  lemma CleanedKeepsNode(ram: Ram, tree: Tree, ram': Ram, tree': Tree, s: nat, top: nat, lo: nat, hi: nat, n: Node)
    requires Cleaned(ram, tree, ram', tree', s, top, lo, hi) && n in tree && n.level >= top
    ensures n in tree' && tree'[n] == tree[n] && |ram'| == |ram|
    ensures tree[n] < |ram| && Untouched(n, s, top) ==> ram'[tree[n]] == ram[tree[n]]
  {
    assert !Below(n, s, top, lo, hi);
  }


  lemma OwnLeafWritable(ram: Ram, tree: Tree, kinds: Kinds, n: Node, i: Index)
    requires Separated(ram, tree, kinds) && n in tree && n.level == 1 && tree[n] < |ram|
    requires n.space in kinds && kinds[n.space].App? && ram[tree[n]][i].present
    ensures ram[tree[n]][i].writable <==> Child(n, i) in tree
  {
    LeafOf(ram, tree, n.space, n.prefix, i);
    assert n == Node(n.space, 1, n.prefix);
    assert Leaf(ram, tree, n.space, n.prefix * 512 + i).Some?;
  }

  lemma AttachedValues(tree: Tree, n: Node, f: nat)
    requires n !in tree
    ensures tree[n := f].Values == tree.Values + {f}
  {
    var tree' := tree[n := f];
    assert forall m :: m in tree ==> tree'[m] == tree[m];
    assert tree'[n] == f;
  }
}
