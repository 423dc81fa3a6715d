/** The bitmap frame allocator (kernel/memory_manager.cpp). */
module MemoryManager {
  import opened Basics
  import opened MemoryMap

  const BYTES_PER_FRAME: nat := 4096
  const BITS_PER_LINE: nat := 64
  const FRAME_COUNT: nat := 128 * 1024 * 1024 * 1024 / BYTES_PER_FRAME
  const HEAP_FRAMES: nat := 64 * 512

  /** One machine word of the bitmap, as its 64 bits, least significant first. */
  type MapLine = l: seq<bool> | |l| == BITS_PER_LINE witness seq(BITS_PER_LINE, _ => false)

  /** The frames below `k` whose bit is set. */
  ghost function SetBits(lines: seq<MapLine>, k: nat): set<nat>
    requires k <= |lines| * BITS_PER_LINE
  {
    if k == 0 then {}
    else SetBits(lines, k - 1) + if lines[(k - 1) / BITS_PER_LINE][(k - 1) % BITS_PER_LINE] then {k - 1} else {}
  }

  lemma {:induction false} SetBitsMembers(lines: seq<MapLine>, k: nat)
    requires k <= |lines| * BITS_PER_LINE
    ensures forall f: nat :: f in SetBits(lines, k) <==> f < k && lines[f / BITS_PER_LINE][f % BITS_PER_LINE]
  {
    if k > 0 {
      SetBitsMembers(lines, k - 1);
    }
  }

  class BitmapMemoryManager {
    const allocMap: array<MapLine>
    var rangeBegin: nat
    var rangeEnd: nat

    ghost predicate Valid()
      reads this
    {
      allocMap.Length * BITS_PER_LINE == FRAME_COUNT && rangeBegin <= FRAME_COUNT && rangeEnd <= FRAME_COUNT
    }

    /** The frames whose bit is set. */
    ghost function Allocated(): (s: set<nat>)
      requires Valid()
      reads this, allocMap
    {
      SetBits(allocMap[..], FRAME_COUNT)
    }

    constructor ()
      ensures Valid() && fresh(this) && fresh(allocMap)
      ensures Allocated() == {}
      ensures rangeBegin == 0 && rangeEnd == FRAME_COUNT
    {
      allocMap := new MapLine[FRAME_COUNT / BITS_PER_LINE](_ => seq(BITS_PER_LINE, _ => false));
      rangeBegin, rangeEnd := 0, FRAME_COUNT;
      new;
      SetBitsMembers(allocMap[..], FRAME_COUNT);
    }

    method GetBit(frame: nat) returns (b: bool)
      requires Valid() && frame < FRAME_COUNT
      ensures b == (frame in Allocated())
    {
      SetBitsMembers(allocMap[..], FRAME_COUNT);
      b := allocMap[frame / BITS_PER_LINE][frame % BITS_PER_LINE];
    }

    method SetBit(frame: nat, used: bool)
      requires Valid() && frame < FRAME_COUNT
      modifies allocMap
      ensures Allocated() == if used then old(Allocated()) + {frame} else old(Allocated()) - {frame}
    {
      SetBitsMembers(allocMap[..], FRAME_COUNT);
      var line := frame / BITS_PER_LINE;
      allocMap[line] := allocMap[line][frame % BITS_PER_LINE := used];
      SetBitsMembers(allocMap[..], FRAME_COUNT);
    }

    method MarkAllocated(start: nat, n: nat)
      requires Valid() && start + n <= FRAME_COUNT
      modifies allocMap
      ensures Allocated() == old(Allocated()) + Run(start, n)
    {
      for i := 0 to n
        invariant Allocated() == old(Allocated()) + Run(start, i)
      {
        SetBit(start + i, true);
        assert Run(start, i + 1) == Run(start, i) + {start + i};
      }
    }

    method Free(start: nat, n: nat)
      requires Valid() && start + n <= FRAME_COUNT
      modifies allocMap
      ensures Allocated() == old(Allocated()) - Run(start, n)
    {
      for i := 0 to n
        invariant Allocated() == old(Allocated()) - Run(start, i)
      {
        SetBit(start + i, false);
        assert Run(start, i + 1) == Run(start, i) + {start + i};
      }
    }

    method SetMemoryRange(begin: nat, end: nat)
      requires Valid() && begin <= FRAME_COUNT && end <= FRAME_COUNT
      modifies this
      ensures Valid() && rangeBegin == begin && rangeEnd == end
    {
      rangeBegin, rangeEnd := begin, end;
    }

    /** First fit: the lowest run of `n` free frames, or failure exactly when there is none. */
    method Allocate(n: nat) returns (r: Option<nat>)
      requires Valid()
      modifies allocMap
      ensures r.Some? ==>
        && FreeRun(old(Allocated()), rangeBegin, rangeEnd, r.value, n)
        && forall f: nat :: f < r.value ==> !FreeRun(old(Allocated()), rangeBegin, rangeEnd, f, n)
      ensures r.Some? ==> Allocated() == old(Allocated()) + Run(r.value, n)
      ensures r.None? ==> (forall f: nat :: !FreeRun(Allocated(), rangeBegin, rangeEnd, f, n)) && Allocated() == old(Allocated())
    {
      ghost var used := Allocated();
      var start := rangeBegin;
      while true
        invariant rangeBegin <= start
        invariant n > 0 && start > rangeBegin ==> start <= rangeEnd
        invariant n == 0 ==> start == rangeBegin
        invariant forall f: nat :: f < start ==> !FreeRun(used, rangeBegin, rangeEnd, f, n)
        invariant Allocated() == used
        decreases if start <= rangeEnd then rangeEnd - start else 0
      {
        var i := 0;
        while i < n
          invariant 0 <= i <= n
          invariant Allocated() == used
          invariant forall j: nat :: InRun(j, start, i) ==> j < rangeEnd && j !in used
        {
          if start + i >= rangeEnd {
            forall f: nat | f >= start
              ensures !FreeRun(used, rangeBegin, rangeEnd, f, n)
            {
              assert InRun(f + i, f, n);
            }
            return None;
          }
          var b := GetBit(start + i);
          if b {
            break;
          }
          i := i + 1;
        }
        if i == n {
          assert FreeRun(used, rangeBegin, rangeEnd, start, n);
          if n > 0 {
            assert InRun(start + n - 1, start, n);
          }
          MarkAllocated(start, n);
          return Some(start);
        }
        forall f: nat | start <= f <= start + i
          ensures !FreeRun(used, rangeBegin, rangeEnd, f, n)
        {
          assert start + i in used && InRun(start + i, f, n);
        }
        start := start + i + 1;
      }
    }
  }

  predicate InRun(f: nat, start: nat, n: nat) {
    start <= f < start + n
  }

  /** The `n` frames from `start`. */
  function Run(start: nat, n: nat): (s: set<nat>) {
    set f: nat | start <= f < start + n && InRun(f, start, n)
  }

  /** `n` consecutive frames of the range `[begin, end)`, none of them in `used`, start at `f`. */
  ghost predicate FreeRun(used: set<nat>, begin: nat, end: nat, f: nat, n: nat) {
    begin <= f && forall j: nat :: InRun(j, f, n) ==> j < end && j !in used
  }
}
