/** The first-fit frame allocator of kernel/memory/memory_manager.cpp: a bitmap of
    64-bit lines, refined to the plain set of allocated frames. */
module MemoryManager {
  import opened MapLine

  const BYTES_PER_FRAME: nat := 4096
  const MAX_PHYSICAL_MEMORY_BYTES: nat := 128 * 1024 * 1024 * 1024
  const FRAME_COUNT: nat := MAX_PHYSICAL_MEMORY_BYTES / BYTES_PER_FRAME

  datatype Allocation = Allocated(start: nat) | NoEnoughMemory

  /** n consecutive free frames from `start`, all below `end`. */
  ghost predicate FreeRun(used: set<nat>, start: nat, n: nat, end: nat) {
    forall f: nat :: start <= f < start + n ==> f < end && f !in used
  }

  predicate InRun(f: nat, start: nat, n: nat) {
    start <= f < start + n
  }

  ghost function Frames(start: nat, n: nat): set<nat> {
    set f: nat | f < start + n && InRun(f, start, n)
  }

  class BitmapMemoryManager {
    const allocMap: array<bv64>
    var rangeBegin: nat
    var rangeEnd: nat
    /** The allocated frames, as the bitmap records them. */
    ghost var used: set<nat>

    ghost predicate Valid()
      reads this, allocMap
    {
      && allocMap.Length * BITS_PER_MAP_LINE == FRAME_COUNT
      && rangeEnd <= FRAME_COUNT
      && (forall f :: f in used ==> f < FRAME_COUNT)
      && (forall f: nat :: f < FRAME_COUNT ==> (f in used <==> BitAt(f)))
    }

    ghost predicate BitAt(f: nat)
      requires allocMap.Length * BITS_PER_MAP_LINE == FRAME_COUNT && f < FRAME_COUNT
      reads allocMap
    {
      Test(allocMap[f / BITS_PER_MAP_LINE], Mask(f % BITS_PER_MAP_LINE))
    }

    constructor ()
      ensures Valid() && fresh(allocMap)
      ensures used == {} && rangeBegin == 0 && rangeEnd == FRAME_COUNT
    {
      allocMap := new bv64[FRAME_COUNT / BITS_PER_MAP_LINE](_ => 0);
      rangeBegin, rangeEnd := 0, FRAME_COUNT;
      used := {};
      new;
      forall f: nat | f < FRAME_COUNT ensures !BitAt(f) {
        ZeroLine(Mask(f % BITS_PER_MAP_LINE));
      }
    }

    method SetMemoryRange(begin: nat, end: nat)
      requires Valid() && end <= FRAME_COUNT
      modifies this
      ensures Valid() && used == old(used)
      ensures rangeBegin == begin && rangeEnd == end
    {
      rangeBegin, rangeEnd := begin, end;
    }

    method GetBit(frame: nat) returns (b: bool)
      requires Valid() && frame < FRAME_COUNT
      ensures b <==> frame in used
    {
      var line, bit := frame / BITS_PER_MAP_LINE, frame % BITS_PER_MAP_LINE;
      b := Test(allocMap[line], Mask(bit));
      assert b == BitAt(frame);
    }

    method SetBit(frame: nat, taken: bool)
      requires Valid() && frame < FRAME_COUNT
      modifies this`used, allocMap
      ensures Valid()
      ensures used == if taken then old(used) + {frame} else old(used) - {frame}
    {
      var line, bit := frame / BITS_PER_MAP_LINE, frame % BITS_PER_MAP_LINE;
      PutReadsBack(allocMap[line], bit, taken);
      ghost var was := allocMap[line];
      allocMap[line] := Put(allocMap[line], Mask(bit), taken);
      used := if taken then used + {frame} else used - {frame};
      forall f: nat | f < FRAME_COUNT ensures f in used <==> BitAt(f) {
        assert old(BitAt(f)) <==> f in old(used);
        if f / BITS_PER_MAP_LINE == line {
          if f != frame {
            PutKeepsOthers(was, bit, taken, f % BITS_PER_MAP_LINE);
          }
        }
      }
    }

    method MarkAllocated(start: nat, n: nat)
      requires Valid() && start + n <= FRAME_COUNT
      modifies this`used, allocMap
      ensures Valid() && used == old(used) + Frames(start, n)
    {
      for i := 0 to n
        invariant Valid() && used == old(used) + Frames(start, i)
      {
        SetBit(start + i, true);
      }
    }

    method Free(start: nat, n: nat)
      requires Valid() && start + n <= FRAME_COUNT
      modifies this`used, allocMap
      ensures Valid() && used == old(used) - Frames(start, n)
    {
      for i := 0 to n
        invariant Valid() && used == old(used) - Frames(start, i)
      {
        SetBit(start + i, false);
      }
    }

    /** First fit: the lowest start of n free frames in the managed range, and exactly
        those frames marked; or failure exactly when the range holds no such run. */
    method Allocate(n: nat) returns (r: Allocation)
      requires Valid()
      modifies this`used, allocMap
      ensures Valid()
      ensures r.Allocated? ==>
        && rangeBegin <= r.start && FreeRun(old(used), r.start, n, rangeEnd)
        && (forall s: nat :: rangeBegin <= s < r.start ==> !FreeRun(old(used), s, n, rangeEnd))
        && used == old(used) + Frames(r.start, n)
      ensures r.NoEnoughMemory? ==>
        && used == old(used)
        && (forall s: nat :: rangeBegin <= s ==> !FreeRun(used, s, n, rangeEnd))
    {
      var start := rangeBegin;
      while true
        invariant rangeBegin <= start && Valid() && used == old(used)
        invariant forall s: nat :: rangeBegin <= s < start ==> !FreeRun(used, s, n, rangeEnd)
        decreases rangeEnd - start
      {
        var i := 0;
        while i < n
          invariant 0 <= i <= n && Valid() && used == old(used)
          invariant FreeRun(used, start, i, rangeEnd)
        {
          if start + i >= rangeEnd {
            forall s: nat | rangeBegin <= s ensures !FreeRun(used, s, n, rangeEnd) {
              if s >= start { assert s + n - 1 in used || s + n - 1 >= rangeEnd; }
            }
            return NoEnoughMemory;
          }
          var taken := GetBit(start + i);
          if taken {
            break;
          }
          i := i + 1;
        }
        if i == n {
          assert n > 0 ==> start + n - 1 !in used;
          if n > 0 {
            MarkAllocated(start, n);
          } else {
            assert Frames(start, n) == {};
          }
          return Allocated(start);
        }
        // The frame at start + i is taken, so no run may begin at or before it.
        forall s: nat | start <= s < start + i + 1 ensures !FreeRun(used, s, n, rangeEnd) {
          assert s <= start + i < s + n;
        }
        start := start + i + 1;
      }
    }
  }

  lemma ZeroLine(m: bv64)
    ensures !Test(0, m)
  {}
}
