/** Start-up of the frame allocator from the firmware's memory map (kernel/memory_manager.cpp). */
module MemoryInit {
  import opened Basics
  import opened MemoryMap
  import opened MemoryManager

  /** What the firmware promises: aligned, non-empty, pairwise disjoint descriptors that fit the bitmap. */
  ghost predicate WellFormedMap(descs: multiset<MemoryDescriptor>) {
    && (forall d :: d in descs ==>
          descs[d] == 1 && d.pages > 0 && d.start % BYTES_PER_FRAME == 0 && d.End() <= FRAME_COUNT * BYTES_PER_FRAME)
    && (forall d, e :: d in descs && e in descs && d != e ==> d.End() <= e.start || e.End() <= d.start)
  }

  ghost predicate Covers(d: MemoryDescriptor, frame: nat) {
    IsAvailable(d.kind) && d.start <= frame * BYTES_PER_FRAME < d.End()
  }

  ghost predicate Covered(descs: multiset<MemoryDescriptor>, frame: nat) {
    exists d :: d in descs && Covers(d, frame)
  }

  /** The bitmap and `available_end` after the marking loop has passed some descriptors. */
  datatype Marking = Marking(used: set<nat>, availableEnd: nat)

  function MarkOne(m: Marking, d: MemoryDescriptor): Marking {
    var gap := if m.availableEnd < d.start
               then Run(m.availableEnd / BYTES_PER_FRAME, (d.start - m.availableEnd) / BYTES_PER_FRAME) else {};
    if IsAvailable(d.kind) then
      Marking(m.used + gap, d.End())
    else
      Marking(m.used + gap + Run(d.start / BYTES_PER_FRAME, d.pages * UEFI_PAGE_SIZE / BYTES_PER_FRAME), m.availableEnd)
  }

  function MarkAll(descs: seq<MemoryDescriptor>): Marking {
    if descs == [] then Marking({}, 0) else MarkOne(MarkAll(descs[..|descs| - 1]), descs[|descs| - 1])
  }

  /** `m` leaves free exactly the covered frames below its `availableEnd`, covers nothing beyond it, and
      has touched nothing from byte `bound` on. */
  ghost predicate Marks(m: Marking, descs: multiset<MemoryDescriptor>, bound: nat) {
    && m.availableEnd % BYTES_PER_FRAME == 0 && m.availableEnd <= bound
    && (forall f: nat :: f * BYTES_PER_FRAME < m.availableEnd ==> (f !in m.used <==> Covered(descs, f)))
    && (forall f: nat :: f * BYTES_PER_FRAME >= m.availableEnd ==> !Covered(descs, f))
    && (forall f: nat :: f in m.used ==> f * BYTES_PER_FRAME < bound)
  }

  lemma RunBetween(a: nat, b: nat, f: nat)
    requires a <= b && a % BYTES_PER_FRAME == 0 && b % BYTES_PER_FRAME == 0
    ensures f in Run(a / BYTES_PER_FRAME, (b - a) / BYTES_PER_FRAME) <==> a <= f * BYTES_PER_FRAME < b
  {}

  lemma CoveredPlus(descs: multiset<MemoryDescriptor>, d: MemoryDescriptor, f: nat)
    ensures Covered(descs + multiset{d}, f) <==> Covered(descs, f) || Covers(d, f)
  {
    var all := descs + multiset{d};
    if Covered(descs, f) {
      var e :| e in descs && Covers(e, f);
      assert e in all;
    }
    assert d in all;
  }

  lemma MarkOneStep(m: Marking, descs: multiset<MemoryDescriptor>, bound: nat, d: MemoryDescriptor)
    requires Marks(m, descs, bound) && bound <= d.start && d.start % BYTES_PER_FRAME == 0
    ensures Marks(MarkOne(m, d), descs + multiset{d}, d.End())
  {
    var m' := MarkOne(m, d);
    forall f: nat
      ensures Covered(descs + multiset{d}, f) <==> Covered(descs, f) || Covers(d, f)
      ensures f in m'.used <==> f in m.used || m.availableEnd <= f * BYTES_PER_FRAME < d.start
                                || (!IsAvailable(d.kind) && d.start <= f * BYTES_PER_FRAME < d.End())
    {
      CoveredPlus(descs, d, f);
      RunBetween(m.availableEnd, d.start, f);
      RunBetween(d.start, d.End(), f);
    }
  }

  /** On a sorted map the marking loop leaves free exactly the covered frames. */
  lemma {:induction false} MarkAllFree(descs: seq<MemoryDescriptor>)
    requires SortedByStart(descs) && WellFormedMap(multiset(descs))
    ensures Marks(MarkAll(descs), multiset(descs), if descs == [] then 0 else descs[|descs| - 1].End())
  {
    hide Marks, WellFormedMap, MarkOne;
    if descs != [] {
      var n := |descs| - 1;
      var front, d := descs[..n], descs[n];
      assert descs == front + [d];
      FrontOfMap(front, d);
      MarkAllFree(front);
      MarkAllStep(front, d);
    } else {
      MarksNothing();
    }
  }

  lemma MarkAllStep(front: seq<MemoryDescriptor>, d: MemoryDescriptor)
    requires SortedByStart(front + [d]) && WellFormedMap(multiset(front + [d]))
    requires Marks(MarkAll(front), multiset(front), if front == [] then 0 else front[|front| - 1].End())
    ensures Marks(MarkAll(front + [d]), multiset(front + [d]), d.End())
  {
    hide Marks, WellFormedMap, MarkOne;
    FrontOfMap(front, d);
    MarkOneStep(MarkAll(front), multiset(front), if front == [] then 0 else front[|front| - 1].End(), d);
    assert (front + [d])[..|front|] == front;
  }

  lemma MarksNothing()
    ensures Marks(Marking({}, 0), multiset{}, 0)
  {}

  lemma FrontOfMap(front: seq<MemoryDescriptor>, d: MemoryDescriptor)
    requires SortedByStart(front + [d]) && WellFormedMap(multiset(front + [d]))
    ensures multiset(front + [d]) == multiset(front) + multiset{d}
    ensures SortedByStart(front) && WellFormedMap(multiset(front))
    ensures d.start % BYTES_PER_FRAME == 0
    ensures front != [] ==> front[|front| - 1].End() <= d.start
  {
    var all := front + [d];
    assert forall i :: 0 <= i < |front| ==> front[i] == all[i];
    assert multiset(all) == multiset(front) + multiset{d};
    WellFormedFront(front, d);
    assert d in multiset(all);
    if front != [] {
      var e := front[|front| - 1];
      assert all[|front|] == d && all[|front| - 1] == e;
      assert e in multiset(front) && e in multiset(all) && e != d;
    }
  }

  lemma WellFormedFront(front: seq<MemoryDescriptor>, d: MemoryDescriptor)
    requires WellFormedMap(multiset(front) + multiset{d})
    ensures WellFormedMap(multiset(front)) && d !in multiset(front)
  {
    var all := multiset(front) + multiset{d};
    forall e | e in multiset(front)
      ensures multiset(front)[e] == 1
    {
      assert e in all && d in all;
    }
    assert d in all && all[d] == multiset(front)[d] + 1;
  }

  lemma MarkAllNext(descs: seq<MemoryDescriptor>, i: nat)
    requires WellFormedMap(multiset(descs)) && i < |descs|
    ensures MarkAll(descs[..i + 1]) == MarkOne(MarkAll(descs[..i]), descs[i])
    ensures descs[i].End() <= FRAME_COUNT * BYTES_PER_FRAME
  {
    assert descs[i] in multiset(descs);
    assert descs[..i + 1][..i] == descs[..i];
  }

  /** One iteration of the marking loop. */
  method MarkDescriptor(mm: BitmapMemoryManager, d: MemoryDescriptor, availableEnd: nat) returns (newEnd: nat)
    requires mm.Valid() && d.End() <= FRAME_COUNT * BYTES_PER_FRAME
    modifies mm.allocMap
    ensures Marking(mm.Allocated(), newEnd) == MarkOne(Marking(old(mm.Allocated()), availableEnd), d)
  {
    newEnd := availableEnd;
    if availableEnd < d.start {
      mm.MarkAllocated(availableEnd / BYTES_PER_FRAME, (d.start - availableEnd) / BYTES_PER_FRAME);
    }
    if IsAvailable(d.kind) {
      newEnd := d.End();
    } else {
      mm.MarkAllocated(d.start / BYTES_PER_FRAME, d.pages * UEFI_PAGE_SIZE / BYTES_PER_FRAME);
    }
  }

  /** The marking loop of `InitializeMemoryManager`. */
  method MarkMemoryMap(mm: BitmapMemoryManager, map_: array<MemoryDescriptor>) returns (availableEnd: nat)
    requires mm.Valid() && mm.Allocated() == {}
    requires SortedByStart(map_[..]) && WellFormedMap(multiset(map_[..]))
    modifies mm.allocMap
    ensures Marking(mm.Allocated(), availableEnd) == MarkAll(map_[..])
    ensures map_[..] == old(map_[..])
  {
    ghost var descs := map_[..];
    availableEnd := 0;
    for i := 0 to map_.Length
      invariant map_[..] == descs
      invariant Marking(mm.Allocated(), availableEnd) == MarkAll(descs[..i])
    {
      MarkAllNext(descs, i);
      availableEnd := MarkDescriptor(mm, map_[i], availableEnd);
    }
    assert descs[..|descs|] == descs;
  }

  /** After start-up a managed frame is free iff an available descriptor covers it and the heap does not
      use it; start-up fails iff no run of covered frames is large enough for the heap. */
  method InitializeMemoryManager(map_: array<MemoryDescriptor>)
    returns (mm: BitmapMemoryManager, heap: Option<nat>)
    requires WellFormedMap(multiset(map_[..]))
    modifies map_
    ensures mm.Valid() && mm.rangeBegin == 1
    ensures heap.Some? ==>
      && (forall f: nat :: InRun(f, heap.value, HEAP_FRAMES) ==> 1 <= f < mm.rangeEnd && Covered(multiset(old(map_[..])), f))
      && (forall f: nat :: 1 <= f < mm.rangeEnd ==>
            (f !in mm.Allocated() <==> Covered(multiset(old(map_[..])), f) && !InRun(f, heap.value, HEAP_FRAMES)))
    ensures heap.None? ==>
      && (forall f: nat :: 1 <= f < mm.rangeEnd ==> (f !in mm.Allocated() <==> Covered(multiset(old(map_[..])), f)))
      && (forall f: nat :: !FreeRun(mm.Allocated(), 1, mm.rangeEnd, f, HEAP_FRAMES))
    ensures forall f: nat :: f >= mm.rangeEnd ==> !Covered(multiset(old(map_[..])), f)
  {
    mm := new BitmapMemoryManager();
    SortMemoryMapInPlace(map_);
    ghost var descs := map_[..];
    var availableEnd := MarkMemoryMap(mm, map_);
    MarkAllFree(descs);
    if descs != [] {
      assert descs[|descs| - 1] in multiset(descs);
    }
    mm.SetMemoryRange(1, availableEnd / BYTES_PER_FRAME);
    heap := mm.Allocate(HEAP_FRAMES);
  }
}
