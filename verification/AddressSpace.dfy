/** The paging code of the kernel (kernel/paging.cpp) over physical memory and the frame allocator. */
module AddressSpace {
  import opened Basics
  import opened MemoryManager
  import opened PageTables
  import opened PageGrowth
  import opened PageCopy
  import opened PageClean

  /** The frames of memory include the range the allocator manages and fit its bitmap. */
  ghost predicate FramesOfRange(frames: set<nat>, begin: nat, end: nat) {
    && (forall f: nat :: begin <= f < end ==> f in frames)
    && (forall f :: f in frames ==> f < FRAME_COUNT)
  }

  lemma FrameFits(frames: set<nat>, begin: nat, end: nat, f: nat)
    requires FramesOfRange(frames, begin, end) && f in frames
    ensures f < FRAME_COUNT
  {}

  class PagingUnit {
    const mm: BitmapMemoryManager
    var mem: map<nat, Page>
    ghost var node: map<Pos, nat>
    ghost var role: map<nat, Pos>
    ghost const base: set<nat>
    /** How many times a frame was given back. */
    ghost var frees: nat

    ghost function S(): Memory
      reads this
    {
      Memory(mem, node, role, base)
    }

    /** The allocator works on frames of this memory. */
    ghost predicate Frames()
      reads this, mm
    {
      mm.Valid() && FramesOfRange(mem.Keys, mm.rangeBegin, mm.rangeEnd)
    }

    ghost predicate Inv()
      reads this, mm, mm.allocMap
    {
      Frames() && mm.Allocated() == Alloc(S()) && Tree(S())
    }

    /** Before any address space exists: everything allocated so far belongs to the kernel. */
    constructor (mm: BitmapMemoryManager, mem: map<nat, Page>)
      requires mm.Valid()
      requires FramesOfRange(mem.Keys, mm.rangeBegin, mm.rangeEnd)
      ensures this.mm == mm && this.mem == mem && node == map[] && Inv()
    {
      this.mm := mm;
      this.mem := mem;
      node, role, base := map[], map[], mm.Allocated();
    }

    /** Frames in use plus frames ever given back: constant while nothing is allocated, as long as every
        call that frees a frame frees one that is in use. */
    ghost function Ledger(): nat
      requires mm.Valid()
      reads this`frees, mm, mm.allocMap
    {
      frees + |mm.Allocated()|
    }

    /** No managed frame is free. */
    ghost predicate Exhausted()
      requires mm.Valid()
      reads this, mm, mm.allocMap
    {
      forall f: nat :: mm.rangeBegin <= f < mm.rangeEnd ==> f in mm.Allocated()
    }

    method NewPageMap() returns (frame: nat, ok: bool)
      requires Frames()
      modifies this`mem, mm.allocMap
      ensures Frames()
      ensures ok ==>
        && frame !in old(mm.Allocated()) && mm.Allocated() == old(mm.Allocated()) + {frame}
        && frame in old(mem) && mem == old(mem)[frame := ZeroPage()]
      ensures !ok ==> mem == old(mem) && mm.Allocated() == old(mm.Allocated()) && Exhausted()
    {
      var r := mm.Allocate(1);
      match r
      case None =>
        forall f: nat | mm.rangeBegin <= f < mm.rangeEnd
          ensures f in mm.Allocated()
        {
          assert !FreeRun(mm.Allocated(), mm.rangeBegin, mm.rangeEnd, f, 1);
        }
        return 0, false;
      case Some(f) =>
        assert InRun(f, f, 1);
        assert Run(f, 1) == {f};
        mem := mem[f := ZeroPage()];
        return f, true;
    }

    /** The child table of an entry, created when the entry is not present. */
    method SetNewPageMapIfNotPresent(table: nat, i: nat) returns (child: nat, ok: bool)
      requires Frames() && table in mem && i < ENTRIES && table in mm.Allocated()
      modifies this`mem, mm.allocMap
      ensures Frames() && table in mem
      ensures old(mem[table][i].present) ==>
        ok && child == mem[table][i].addr && mem == old(mem) && mm.Allocated() == old(mm.Allocated())
      ensures !old(mem[table][i].present) && ok ==>
        && child !in old(mm.Allocated()) && mm.Allocated() == old(mm.Allocated()) + {child} && child in old(mem)
        && mem == old(mem)[child := ZeroPage()][table := mem[table]]
        && mem[table] == old(mem[table])[i := old(mem[table][i]).(present := true, addr := child)]
      ensures !ok ==> mem == old(mem) && mm.Allocated() == old(mm.Allocated()) && Exhausted()
    {
      if mem[table][i].present {
        return mem[table][i].addr, true;
      }
      child, ok := NewPageMap();
      if !ok {
        return;
      }
      ghost var m := mem;
      mem := mem[table := mem[table][i := mem[table][i].(addr := child)]];
      mem := mem[table := mem[table][i := mem[table][i].(present := true)]];
      assert mem == m[table := mem[table]];
    }

    /** One iteration of the loop of `SetupPageMap` up to the recursive call, for the entry on the way to
        page `v`: it becomes present and user accessible; at the last level its right is set, above it
        becomes writable. */
    method SetupEntry(table: nat, level: nat, i: nat, writable: bool, ghost p: Pos, ghost v: nat) returns (child: nat, ok: bool)
      requires Inv() && p in node && node[p] == table && p.level == level && 1 <= level
      requires FirstIndex(level) <= i < ENTRIES && (level == 1 ==> v == Child(p, i).k)
      modifies this`mem, this`node, this`role, mm.allocMap
      ensures Inv()
      ensures ok ==> MapsRange(old(S()), S(), p.space, v, if level == 1 then v + 1 else v, writable)
      ensures ok && level > 1 ==> Child(p, i) in node && node[Child(p, i)] == child
      ensures !ok ==> Exhausted() && S() == old(S())
    {
      ghost var s := S();
      assert NodeOk(s, p) && SlotOk(s, p, i);
      child, ok := SetNewPageMapIfNotPresent(table, i);
      if !ok {
        return;
      }
      var e := mem[table][i].(user := true, writable := if level == 1 then writable else true);
      mem := mem[table := mem[table][i := e]];
      if !Slot(s, p, i).present {
        AddChildSound(s, p, i, child, e, ZeroPage());
        node := node[Child(p, i) := child];
        role := role[child := Child(p, i)];
        assert mem[table] == s.mem[table][i := e];
        assert mem == AddChildTo(s, p, i, child, e, ZeroPage()).mem;
      } else if level == 1 {
        SetRightSound(s, p, i, writable);
        assert mem[table] == s.mem[table][i := e];
        assert mem == SetLeaf(s, p, i, e).mem;
      } else {
        assert mem[table] == s.mem[table];
        assert mem == s.mem;
        MapsNothing(s, p.space, v, writable);
      }
    }

    /** Maps `num` pages from `addr` in the table `table`, as far as its span goes, and returns how many are
        left; `done` is the first page not mapped. Without memory it stops with no frame left. */
    method SetupPageMap(table: nat, level: nat, addr: LinearAddress, num: nat, writable: bool, ghost p: Pos)
      returns (remain: nat, ok: bool, ghost done: nat)
      requires Inv() && p in node && node[p] == table && p.level == level && 1 <= level <= 4
      requires addr.Valid() && InUser(addr.PageNumber()) && Ancestor(addr.PageNumber(), level) == p.k
      modifies this`mem, this`node, this`role, mm.allocMap
      ensures Inv()
      ensures MapsRange(old(S()), S(), p.space, addr.PageNumber(), done, writable)
      ensures addr.PageNumber() <= done <= addr.PageNumber() + num
      ensures ok ==> remain == Left(num, First(level, p.k) + Span(level) - addr.PageNumber())
      ensures ok ==> done == addr.PageNumber() + num - remain
      ensures !ok ==> Exhausted()
      decreases level
    {
      hide Tree, MapsRange, First, Span, Ancestor;
      ghost var s := S();
      ghost var v0 := addr.PageNumber();
      ghost var end := First(level, p.k) + Span(level);
      var a := addr;
      remain, ok, done := num, true, v0;
      AncestorFirst(level, v0, p.k);
      MapsNothing(s, p.space, v0, writable);
      while remain > 0
        invariant Inv() && p in node && node[p] == table
        invariant done == v0 + num - remain
        invariant MapsRange(s, S(), p.space, v0, done, writable)
        invariant remain <= num && done <= end
        invariant remain > 0 ==> a.Valid() && a.PageNumber() == done && InUser(done) && done < end
        decreases remain
      {
        ghost var s1 := S();
        var i := a.Part(level);
        EntryOfPage(s1, p, a);
        ghost var next := First(level - 1, Child(p, i).k + 1);
        var child, created := SetupEntry(table, level, i, writable, p, done);
        if !created {
          ok := false;
          return;
        }
        ghost var s2 := S();
        MapsKeep(s1, s2, p.space, done, if level == 1 then done + 1 else done, writable, p);
        MapsJoin(s, s1, s2, p.space, v0, done, if level == 1 then done + 1 else done, writable);
        if level == 1 {
          remain := remain - 1;
          done := done + 1;
        } else {
          var left, mapped, reached := SetupPageMap(child, level - 1, a, remain, writable, Child(p, i));
          MapsKeep(s2, S(), p.space, done, reached, writable, p);
          MapsJoin(s, s2, S(), p.space, v0, done, reached, writable);
          done := reached;
          if !mapped {
            ok := false;
            return;
          }
          remain := left;
        }
        if i == ENTRIES - 1 {
          break;
        }
        NextEntry(a, level, i);
        a := a.SetPart(level, i + 1);
        ghost var b := a;
        var lower := level - 1;
        while lower >= 1
          invariant 0 <= lower < level
          invariant ClearParts(a, lower) == ClearParts(b, level - 1)
        {
          a := a.SetPart(lower, 0);
          lower := lower - 1;
        }
      }
    }

    /** Entry `i` of `src`, which is present, is copied: a page is shared read-only, a table is replaced by
        a new empty one. */
    method CopyEntry(dest: nat, src: nat, part: nat, i: nat, ghost p: Pos, ghost q: Pos) returns (table: nat, ok: bool)
      requires Inv() && p in node && q in node && node[p] == dest && node[q] == src
      requires p.level == q.level == part && 1 <= part && p.k == q.k && p.space != q.space
      requires FirstIndex(part) <= i < ENTRIES && EmptyFrom(S(), p, i) && Slot(S(), q, i).present
      modifies this`mem, this`node, this`role, mm.allocMap
      ensures Inv()
      ensures !ok ==> S() == old(S()) && Exhausted()
      ensures ok && part == 1 ==>
        CopiesRange(old(S()), S(), p.space, q.space, Child(p, i).k, Child(p, i).k + 1) && EmptyFrom(S(), p, i + 1)
      ensures ok && part > 1 ==>
        && Extends(old(S()), S(), p.space)
        && (forall v: nat :: InUser(v) ==> PageCopied(old(S()), S(), p.space, q.space, v, false))
        && (forall c :: c in node && c !in old(node) ==> c == Child(p, i))
        && Child(p, i) in node && node[Child(p, i)] == table && EmptyFrom(S(), Child(p, i), 0) && EmptyFrom(S(), p, i + 1)
    {
      ghost var s := S();
      assert NodeOk(s, p) && NodeOk(s, q) && SlotOk(s, p, i) && SlotOk(s, q, i);
      if part == 1 {
        CopyLeaf(s, p, q, i);
        mem := mem[dest := mem[dest][i := mem[src][i].(writable := false)]];
        return 0, true;
      }
      table, ok := NewPageMap();
      if !ok {
        return;
      }
      var e := mem[src][i].(addr := table);
      mem := mem[dest := mem[dest][i := e]];
      AddTableCopies(s, p, i, table, e, q.space);
      node := node[Child(p, i) := table];
      role := role[table := Child(p, i)];
      assert S() == AddChildTo(s, p, i, table, e, ZeroPage());
    }

    /** Shares with `dest` every page that `src` maps from entry `start` on; page tables are duplicated, the
        pages themselves become read-only in `dest`. */
    method CopyPageMaps(dest: nat, src: nat, part: nat, start: nat, ghost p: Pos, ghost q: Pos) returns (ok: bool)
      requires Inv() && p in node && q in node && node[p] == dest && node[q] == src
      requires p.level == q.level == part && 1 <= part <= 4 && p.k == q.k && p.space != q.space
      requires FirstIndex(part) <= start <= ENTRIES && EmptyFrom(S(), p, start)
      modifies this`mem, this`node, this`role, mm.allocMap
      ensures Inv() && Extends(old(S()), S(), p.space)
      ensures ok ==> CopiesRange(old(S()), S(), p.space, q.space,
                                 First(part - 1, p.k * ENTRIES + start), First(part - 1, p.k * ENTRIES + ENTRIES))
      ensures !ok ==> Exhausted()
      decreases part, 1
    {
      hide Tree, CopiesRange, Extends, EmptyFrom, First, PageCopied;
      ghost var s := S();
      ghost var lo := First(part - 1, p.k * ENTRIES + start);
      ok := true;
      CopiesNothing(s, p.space, q.space, lo, lo);
      CopiesKeep(s, s, p.space, q.space, lo, lo);
      for i := start to ENTRIES
        invariant Inv() && p in node && q in node && node[p] == dest && node[q] == src && ok
        invariant lo <= First(part - 1, p.k * ENTRIES + i)
        invariant CopiesRange(s, S(), p.space, q.space, lo, First(part - 1, p.k * ENTRIES + i))
        invariant EmptyFrom(S(), p, i) && Extends(s, S(), p.space)
      {
        ghost var s1 := S();
        ghost var mid, hi := First(part - 1, p.k * ENTRIES + i), First(part - 1, p.k * ENTRIES + i + 1);
        EntryRange(p, i);
        TableInMemory(s1, q);
        if mem[src][i].present {
          ok := CopyFrom(dest, src, part, i, p, q);
          ExtendsTransitive(s, s1, S(), p.space);
          if !ok {
            return false;
          }
        } else {
          NothingBelow(s1, q, i);
          CopiesNothing(s1, p.space, q.space, mid, hi);
          EmptyLater(s1, p, i);
        }
        CopiesJoin(s, s1, S(), p.space, q.space, lo, mid, hi);
        CopiesKeep(s, S(), p.space, q.space, lo, hi);
      }
    }

    /** One iteration for an entry that is present: it is copied, and then what lies below a table. */
    method CopyFrom(dest: nat, src: nat, part: nat, i: nat, ghost p: Pos, ghost q: Pos) returns (ok: bool)
      requires Inv() && p in node && q in node && node[p] == dest && node[q] == src
      requires p.level == q.level == part && 1 <= part <= 4 && p.k == q.k && p.space != q.space
      requires FirstIndex(part) <= i < ENTRIES && EmptyFrom(S(), p, i) && src in mem && mem[src][i].present
      modifies this`mem, this`node, this`role, mm.allocMap
      ensures Inv() && Extends(old(S()), S(), p.space)
      ensures ok ==> p in node && q in node && node[p] == dest && node[q] == src && EmptyFrom(S(), p, i + 1)
      ensures ok ==> CopiesRange(old(S()), S(), p.space, q.space,
                                 First(part - 1, p.k * ENTRIES + i), First(part - 1, p.k * ENTRIES + i + 1))
      ensures !ok ==> Exhausted()
      decreases part, 0
    {
      hide Tree, CopiesRange, Extends, EmptyFrom, First, PageCopied;
      ghost var s1, lo, hi := S(), First(part - 1, p.k * ENTRIES + i), First(part - 1, p.k * ENTRIES + i + 1);
      EntryRange(p, i);
      TableInMemory(s1, q);
      if part > 1 {
        PresentChild(s1, q, i);
      }
      var child := mem[src][i].addr;
      var table, created := CopyEntry(dest, src, part, i, p, q);
      ghost var s2 := S();
      if !created {
        CopiesNothing(s1, p.space, q.space, lo, lo);
        CopiesKeep(s1, s1, p.space, q.space, lo, lo);
        return false;
      }
      if part > 1 {
        ExtendsKeeps(s1, s2, p.space, p);
        ExtendsKeeps(s1, s2, p.space, q);
        ExtendsKeeps(s1, s2, p.space, Child(q, i));
        ok := CopyPageMaps(table, child, part - 1, 0, Child(p, i), Child(q, i));
        ghost var s3 := S();
        ExtendsTransitive(s1, s2, s3, p.space);
        if !ok {
          return false;
        }
        Spans(part - 1, Child(p, i).k);
        CopiesChild(s1, s2, s3, p, i, q.space);
        ExtendsKeeps(s2, s3, p.space, p);
        ExtendsKeeps(s2, s3, p.space, q);
        EmptyKept(s2, s3, p, i, q.space);
      } else {
        CopiesKeep(s1, s2, p.space, q.space, lo, hi);
        ExtendsKeeps(s1, s2, p.space, p);
        ExtendsKeeps(s1, s2, p.space, q);
        ok := true;
      }
    }

    /** Gives one frame back. */
    method FreePageMap(frame: nat)
      requires Frames() && frame in mm.Allocated() && frame < FRAME_COUNT
      modifies this`frees, mm.allocMap
      ensures Frames() && mm.Allocated() == old(mm.Allocated()) - {frame}
      ensures Ledger() == old(Ledger())
    {
      assert Run(frame, 1) == {frame} by {
        assert InRun(frame, frame, 1);
      }
      mm.Free(frame, 1);
      frees := frees + 1;
    }

    /** Gives the root table of a space back. */
    method FreeRoot(frame: nat, ghost space: Space)
      requires Frames() && frame in mm.Allocated() && frame < FRAME_COUNT
      modifies this`node, this`role, this`frees, mm.allocMap
      ensures Frames() && mm.Allocated() == old(mm.Allocated()) - {frame}
      ensures S() == old(S()).(node := old(node) - {Root(space)}, role := old(role) - {frame})
      ensures Ledger() == old(Ledger())
    {
      FreePageMap(frame);
      node, role := node - {Root(space)}, role - {frame};
    }

    /** The end of an iteration of `CleanPageMap`: the frame of a writable entry is freed and the entry
        cleared. */
    method CleanEntry(table: nat, i: nat, ghost p: Pos)
      requires Inv() && CanRemove(S(), p, i) && node[p] == table && Slot(S(), p, i).present
      requires Slot(S(), p, i).writable <==> Child(p, i) in node
      modifies this`mem, this`node, this`role, this`frees, mm.allocMap
      ensures Inv() && S() == RemoveChild(old(S()), p, i)
      ensures Ledger() == old(Ledger())
    {
      hide Tree, CanRemove, Ledger;
      ghost var s, c := S(), Child(p, i);
      RemoveReady(s, p, i);
      RemoveChildTree(s, p, i);
      var e := mem[table][i];
      if e.writable {
        FreePageMap(e.addr);
        node, role := node - {c}, role - {e.addr};
      }
      mem := mem[table := mem[table][i := NULL_WORD]];
    }

    /** Unmaps every page from `addr`, whose lower parts are zero, to the end of the table's span, and frees
        the tables below and the pages the space owns, each exactly once; borrowed pages are not freed. */
    method CleanPageMap(table: nat, level: nat, addr: LinearAddress, ghost p: Pos)
      requires Inv() && p in node && node[p] == table && p.level == level && 1 <= level <= 4
      requires FirstIndex(level) <= addr.Part(level) <= ENTRIES && forall l :: 1 <= l < level ==> addr.Part(l) == 0
      requires LeavesOwned(S(), p.space)
      modifies this`mem, this`node, this`role, this`frees, mm.allocMap
      ensures Inv() && LeavesOwned(S(), p.space)
      ensures Cleans(old(S()), S(), p.space, level, First(level - 1, p.k * ENTRIES + addr.Part(level)),
                     First(level - 1, p.k * ENTRIES + ENTRIES))
      ensures Ledger() == old(Ledger())
      decreases level
    {
      hide Tree, Cleans, First, LeavesOwned, EmptyFrom, RemoveChild, CanRemove, Ledger;
      ghost var s := S();
      ghost var lo := First(level - 1, p.k * ENTRIES + addr.Part(level));
      CleansNothing(s, p.space, level, lo);
      for i := addr.Part(level) to ENTRIES
        invariant Inv() && p in node && node[p] == table && LeavesOwned(S(), p.space)
        invariant lo <= First(level - 1, p.k * ENTRIES + i)
        invariant Cleans(s, S(), p.space, level, lo, First(level - 1, p.k * ENTRIES + i))
        invariant Ledger() == old(Ledger())
      {
        ghost var s1 := S();
        ghost var mid, hi := First(level - 1, p.k * ENTRIES + i), First(level - 1, p.k * ENTRIES + i + 1);
        EntryRange(p, i);
        TableInMemory(s1, p);
        if mem[table][i].present {
          if level > 1 {
            PresentChild(s1, p, i);
            CleanPageMap(mem[table][i].addr, level - 1, addr, Child(p, i));
            ghost var s2 := S();
            Spans(level - 1, Child(p, i).k);
            CleansKeeps(s1, s2, p, level - 1, mid, hi);
            RemoveTableCleans(s1, s2, p, i);
          } else {
            LeafReady(s1, p, i);
            RemoveLeafCleans(s1, p, i);
            assert Cleans(s1, RemoveChild(s1, p, i), p.space, level, mid, hi);
          }
          ghost var s3 := S();
          assert Cleans(s1, RemoveChild(s3, p, i), p.space, level, mid, hi);
          CleanEntry(table, i, p);
          assert Cleans(s1, S(), p.space, level, mid, hi);
        } else {
          AbsentCleans(s1, p, i);
          assert Cleans(s1, S(), p.space, level, mid, hi);
        }
        CleansKeepsOwned(s1, S(), p.space, level, mid, hi);
        CleansKeeps(s1, S(), p, level, mid, hi);
        CleansJoin(s, s1, S(), p.space, level, lo, mid, hi);
      }
    }

    /** Walks to the last-level entry of `addr` and points it, writable, at `content`. */
    method SetPageContent(table: nat, part: nat, addr: LinearAddress, content: nat)
      requires addr.Valid() && 1 <= part <= 4 && PathInMemory(mem, table, part, addr)
      modifies this`mem
      ensures LastTable(old(mem), table, part, addr) in old(mem)
      ensures mem == RetargetLeaf(old(mem), LastTable(old(mem), table, part, addr), addr.page, content)
      decreases part
    {
      var i := addr.Part(part);
      if part == 1 {
        ghost var m := mem;
        mem := mem[table := mem[table][i := mem[table][i].(addr := content)]];
        mem := mem[table := mem[table][i := mem[table][i].(writable := true)]];
        assert mem[table] == m[table][i := m[table][i].(addr := content, writable := true)];
        assert mem == RetargetLeaf(m, table, i, content);
        return;
      }
      SetPageContent(mem[table][i].addr, part - 1, addr, content);
    }

    /** The memory part of `CopyOnePage`: a new frame holds a copy of the page and the entry points at it. */
    method CopyToNewFrame(root: nat, addr: LinearAddress, ghost space: Space) returns (frame: nat, ok: bool)
      requires Inv() && Root(space) in node && node[Root(space)] == root
      requires addr.Valid() && InUser(addr.PageNumber()) && Leaf(S(), space, addr.PageNumber()).present
      requires Leaf(S(), space, addr.PageNumber()).addr in mm.Allocated()
      modifies this`mem, mm.allocMap
      ensures Frames()
      ensures ok ==>
        && frame in old(mem) && frame !in old(mm.Allocated()) && mm.Allocated() == old(mm.Allocated()) + {frame}
        && TableOf(old(S()), space, addr) in old(mem)
        && mem == RetargetLeaf(old(mem)[frame := PageAt(old(S()), space, addr.PageNumber())],
                               TableOf(old(S()), space, addr), addr.page, frame)
      ensures !ok ==> mem == old(mem) && mm.Allocated() == old(mm.Allocated()) && Exhausted()
    {
      hide Tree, SetBits, PathInMemory, LastTable;
      ghost var s := S();
      TakeReady(s, space, addr.PageNumber());
      frame, ok := NewPageMap();
      if !ok {
        return;
      }
      UserFrameMapped(s, mem, space, addr);
      ghost var m := mem;
      mem := mem[frame := mem[Walk(mem, root, 4, addr.PageNumber(), true, true).frame]];
      assert mem == s.mem[frame := PageAt(s, space, addr.PageNumber())];
      ReachLastTable(s, mem, space, 4, addr);
      SetPageContent(root, 4, addr, frame);
    }

    /** Copy on write: the faulting page, which is present but borrowed, moves to a frame of its own. */
    method CopyOnePage(root: nat, addr: LinearAddress, ghost space: Space) returns (ok: bool)
      requires Inv() && Root(space) in node && node[Root(space)] == root
      requires addr.Valid() && InUser(addr.PageNumber())
      requires Leaf(S(), space, addr.PageNumber()).present && Leaf(S(), space, addr.PageNumber()).addr in mm.Allocated()
      requires Pos(space, 0, addr.PageNumber()) !in node
      modifies this`mem, this`node, this`role, mm.allocMap
      ensures Inv()
      ensures ok ==> PageTaken(old(S()), S(), space, addr.PageNumber())
      ensures !ok ==> S() == old(S()) && Exhausted()
    {
      hide Tree, PageTaken, Extends, Slot;
      ghost var s, v := S(), addr.PageNumber();
      TakeReady(s, space, v);
      PartIsIndex(addr, 1);
      var frame;
      frame, ok := CopyToNewFrame(root, addr, space);
      if ok {
        TakePage(s, space, addr, frame);
        node := node[Pos(space, 0, v) := frame];
        role := role[frame := Pos(space, 0, v)];
      }
    }
  }
}
