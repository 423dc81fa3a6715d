/** Loading, running and leaving applications (kernel/terminal.cpp, kernel/syscall.cpp, and the page-fault
    handler of kernel/paging.cpp). */
module Apps {
  import opened Basics
  import opened MemoryManager
  import opened PageTables
  import opened PageGrowth
  import opened PageCopy
  import opened PageClean
  import opened CopyOnWrite
  import opened SpaceLifecycle
  import opened AppModel
  import opened AppRuns
  import opened AppWorld
  import opened AppSteps
  import opened AddressSpace

  /** The end of a page fault: resolved, refused (the access was illegal), or out of memory. */
  datatype FaultResult = Resolved | Refused | NoMemory

  class AppManager {
    const paging: PagingUnit
    const kernelRoot: nat
    var cr3: nat
    var appLoads: map<nat, AppLoadInfo>
    var contexts: map<nat, nat>
    var tasks: map<nat, TaskMem>
    /** The file each running task borrows pages from. */
    ghost var home: map<nat, nat>
    /** What every cached image and every running application looks like. */
    ghost var sys: System
    ghost const kernel: Kernel

    ghost predicate Records()
      reads this, paging
    {
      kernel.root == kernelRoot && RecordsMatch(paging.node, sys, contexts, tasks, appLoads)
    }

    ghost predicate Sound()
      reads this, paging, paging.mm, paging.mm.allocMap
    {
      paging.Inv() && World(paging.S(), home, kernel, sys)
    }

    ghost predicate Valid()
      reads this, paging, paging.mm, paging.mm.allocMap
    {
      Sound() && Records() && ImagesBelowStack(sys)
    }

    /** The kernel half of the current root table is the kernel's. */
    ghost predicate RootCurrent()
      reads this, paging, paging.mm, paging.mm.allocMap
    {
      && Sound() && kernel.root == kernelRoot
      && cr3 in paging.mem && cr3 in paging.mm.Allocated() && paging.mem[cr3][..USER_INDEX] == kernel.half
    }

    /** The current root table is that of the space. */
    ghost predicate Current(a: Space)
      reads this, paging, paging.mm, paging.mm.allocMap
    {
      RootCurrent() && Has(sys, a) && Root(a) in paging.node && cr3 == paging.node[Root(a)]
    }

    /** At start-up no image is cached and no application runs. */
    constructor (paging: PagingUnit, kernelRoot: nat)
      requires paging.Inv() && paging.node == map[] && kernelRoot in paging.base && kernelRoot in paging.mem
      ensures Valid() && sys == System(map[], map[])
      ensures this.paging == paging
    {
      this.paging := paging;
      this.kernelRoot := kernelRoot;
      cr3 := kernelRoot;
      appLoads, contexts, tasks, home := map[], map[], map[], map[];
      sys := System(map[], map[]);
      kernel := Kernel(kernelRoot, paging.mem[kernelRoot][..USER_INDEX]);
    }

    /** A new root table with the kernel half of the current one becomes current. */
    method SetupPML4(task: nat) returns (pml4: nat, ok: bool)
      requires paging.Frames() && cr3 in paging.mem && cr3 in paging.mm.Allocated()
      modifies this`cr3, this`contexts, paging`mem, paging.mm.allocMap
      ensures paging.Frames()
      ensures ok ==>
        && pml4 in old(paging.mem) && pml4 !in old(paging.mm.Allocated()) && pml4 in paging.mem
        && paging.mm.Allocated() == old(paging.mm.Allocated()) + {pml4}
        && paging.mem == old(paging.mem)[pml4 := paging.mem[pml4]] && paging.mem.Keys == old(paging.mem.Keys)
        && paging.mem[pml4][..USER_INDEX] == old(paging.mem[cr3])[..USER_INDEX]
        && (forall i :: USER_INDEX <= i < ENTRIES ==> !paging.mem[pml4][i].present)
        && cr3 == pml4 && contexts == old(contexts)[task := pml4]
      ensures !ok ==> paging.Exhausted()
    {
      pml4, ok := paging.NewPageMap();
      if !ok {
        return;
      }
      paging.mem := paging.mem[pml4 := paging.mem[cr3][..USER_INDEX] + paging.mem[pml4][USER_INDEX..]];
      cr3 := pml4;
      contexts := contexts[task := pml4];
    }

    /** `SetupPML4`, with the new root recorded as that of the space `a`. */
    method NewSpace(task: nat, ghost a: Space, ghost home': map<nat, nat>, ghost sys': System) returns (pml4: nat, ok: bool)
      requires RootCurrent() && Adds(sys, sys', home, home', a)
      modifies this`cr3, this`contexts, this`home, this`sys, paging`mem, paging`node, paging`role, paging.mm.allocMap
      ensures ok ==>
        && Current(a) && NodesKept(old(paging.node), paging.node) && cr3 == pml4
        && home == home' && sys == sys' && contexts == old(contexts)[task := pml4]
        && NoPages(paging.S(), a) && EmptyFrom(paging.S(), Root(a), USER_INDEX)
        && (forall b :: b != a ==> FramesOf(paging.S(), b) == old(FramesOf(paging.S(), b)))
      ensures !ok ==> paging.mm.Valid() && paging.Exhausted()
    {
      hide World, FramesOf, AddRoot, NoPages, EmptyFrom, FramesOfRange, Tree, Alloc, Adds, Has;
      ghost var s := paging.S();
      pml4, ok := SetupPML4(task);
      if !ok {
        return;
      }
      ghost var page := paging.mem[pml4];
      WorldAdds(s, home, kernel, sys, a, pml4, page, home', sys');
      AddRootFields(s, a, pml4, page);
      AddedHas(sys, sys', home, home', a);
      paging.node := paging.node[Root(a) := pml4];
      paging.role := paging.role[pml4 := Root(a)];
      home, sys := home', sys';
      WorldTree(paging.S(), home, kernel, sys);
    }

    // ----- loading

    /** The current root belongs to the template under construction, from which nothing borrows yet. */
    ghost predicate Loading(file: nat)
      reads this, paging, paging.mm, paging.mm.allocMap
    {
      Current(Template(file)) && forall t :: t in home ==> home[t] != file
    }

    /** A loader write through the current page tables; write protection does not apply to the kernel. */
    method KernelWrite(addr: nat, w: Word, ghost file: nat)
      requires Loading(file) && InUser(addr / ENTRIES) && addr / ENTRIES in PagesOf(sys, Template(file))
      modifies paging`mem, this`sys
      ensures Loading(file) && paging.role == old(paging.role) && paging.node == old(paging.node)
      ensures sys == WithPages(old(sys), Template(file), WriteWord(PagesOf(old(sys), Template(file)), addr, w))
    {
      hide World, Leaf, FramesOfRange, Has;
      ghost var s, a := paging.S(), Template(file);
      var v := addr / ENTRIES;
      WorldWalk(s, home, kernel, sys, a, v);
      var frame := Walk(paging.mem, cr3, 4, v, true, true).frame;
      var page := paging.mem[frame][addr % ENTRIES := w];
      paging.mem := paging.mem[frame := page];
      WorldWrites(s, home, kernel, sys, a, v, page);
      assert paging.S() == WritePage(s, a, v, page);
      WithPagesHas(sys, a, PagesOf(sys, a)[v := page]);
      sys := WithPages(sys, a, PagesOf(sys, a)[v := page]);
      WorldTree(paging.S(), home, kernel, sys);
      WorldRoot(paging.S(), home, kernel, sys, a);
    }

    /** The copy of a segment's words, and the clearing of the rest, into its mapped pages. */
    method FillSegment(g: Segment, ghost file: nat, ghost pages: Pages)
      requires Loading(file) && g.Valid()
      requires PagesOf(sys, Template(file)) == WithZeroPages(pages, g.FirstPage(), g.FirstPage() + g.NumPages())
      modifies paging`mem, this`sys
      ensures Loading(file) && paging.role == old(paging.role) && paging.node == old(paging.node)
      ensures sys == WithPages(old(sys), Template(file), LoadSegment(pages, g))
    {
      hide World, WithPages, PagesOf, WriteWords, LoadSegment, Has, WithZeroPages, FramesOfRange;
      ghost var a, sys0, content := Template(file), sys, g.Content();
      ghost var p0 := PagesOf(sys0, a);
      ghost var role, node := paging.role, paging.node;
      LoadStart(sys0, a, g);
      for j := 0 to |g.words|
        invariant Loading(file) && paging.role == role && paging.node == node
        invariant sys == WithPages(sys0, a, WriteWords(p0, g.addr, content[..j]))
      {
        LoadStep(sys0, a, pages, g, j);
        KernelWrite(g.addr + j, g.words[j], file);
      }
      for j := |g.words| to g.memsz
        invariant Loading(file) && paging.role == role && paging.node == node
        invariant sys == WithPages(sys0, a, WriteWords(p0, g.addr, content[..j]))
      {
        LoadStep(sys0, a, pages, g, j);
        KernelWrite(g.addr + j, NULL_WORD, file);
      }
      LoadEnd(pages, g);
    }

    /** Maps the pages of one segment read-only and fills in its words. */
    method CopyLoadSegment(g: Segment, ghost file: nat) returns (ok: bool)
      requires Loading(file) && g.Valid()
      modifies paging`mem, paging`node, paging`role, paging.mm.allocMap, this`sys
      ensures ok ==> Loading(file) && NodesKept(old(paging.node), paging.node)
      ensures ok ==> forall b :: b != Template(file) ==> FramesOf(paging.S(), b) == old(FramesOf(paging.S(), b))
      ensures ok ==> sys == WithPages(old(sys), Template(file), LoadSegment(PagesOf(old(sys), Template(file)), g))
      ensures !ok ==> paging.mm.Valid() && paging.Exhausted()
    {
      hide World, MapsRange, FramesOf, WithPages, PagesOf, LoadSegment, Has, WithZeroPages, FramesOfRange, Tree;
      ghost var s, a, sys0 := paging.S(), Template(file), sys;
      var dest := AddressOf(g.FirstPage(), 8 * (g.addr % ENTRIES));
      SegmentRange(g);
      AddressPage(g.FirstPage(), 8 * (g.addr % ENTRIES));
      RootCovers(g.FirstPage());
      WorldTree(s, home, kernel, sys);
      ghost var done;
      var remain;
      remain, ok, done := paging.SetupPageMap(cr3, 4, dest, g.NumPages(), false, Root(a));
      if !ok {
        return;
      }
      ghost var s1, p0 := paging.S(), WithZeroPages(PagesOf(sys0, a), g.FirstPage(), done);
      WorldMaps(s, s1, home, kernel, sys, a, g.FirstPage(), done);
      MapsKeepNodes(s, s1, a, g.FirstPage(), done, false);
      WithPagesHas(sys, a, p0);
      sys := WithPages(sys, a, p0);
      WorldRoot(s1, home, kernel, sys, a);
      FillSegment(g, file, PagesOf(sys0, a));
      WithPagesTwice(sys0, a, p0, LoadSegment(PagesOf(sys0, a), g));
      FramesByRole(s1, paging.S());
    }

    /** Loads every segment in turn; returns the end of the highest one. */
    method CopyLoadSegments(gs: seq<Segment>, ghost file: nat) returns (lastAddr: nat, ok: bool)
      requires Loading(file) && ValidSegments(gs) && PagesOf(sys, Template(file)) == map[]
      modifies paging`mem, paging`node, paging`role, paging.mm.allocMap, this`sys
      ensures ok ==> Loading(file) && NodesKept(old(paging.node), paging.node)
      ensures ok ==> forall b :: b != Template(file) ==> FramesOf(paging.S(), b) == old(FramesOf(paging.S(), b))
      ensures ok ==> sys == WithPages(old(sys), Template(file), LoadSegments(gs)) && lastAddr == EndOf(gs)
      ensures !ok ==> paging.mm.Valid() && paging.Exhausted()
    {
      hide World, FramesOf, WithPages, PagesOf, LoadSegment, LoadSegments, EndOf, Has, FramesOfRange;
      ghost var a, sys0 := Template(file), sys;
      LoadNothing(sys0, a);
      lastAddr, ok := 0, true;
      for i := 0 to |gs|
        invariant Loading(file) && NodesKept(old(paging.node), paging.node) && ok
        invariant forall b :: b != a ==> FramesOf(paging.S(), b) == old(FramesOf(paging.S(), b))
        invariant sys == WithPages(sys0, a, LoadSegments(gs[..i])) && lastAddr == EndOf(gs[..i])
      {
        LoadSegmentsNext(gs, i);
        WithPagesHas(sys0, a, LoadSegments(gs[..i]));
        WithPagesTwice(sys0, a, LoadSegments(gs[..i]), LoadSegments(gs[..i + 1]));
        if lastAddr < gs[i].addr + gs[i].memsz {
          lastAddr := gs[i].addr + gs[i].memsz;
        }
        ok := CopyLoadSegment(gs[i], file);
        if !ok {
          return;
        }
      }
      assert gs[..|gs|] == gs;
    }

    /** The first load of a file: its image is built in an address space of its own. */
    method LoadImage(task: nat, file: nat, gs: seq<Segment>) returns (ok: bool)
      requires RootCurrent() && file !in sys.images && ValidSegments(gs)
      modifies this`cr3, this`contexts, this`home, this`sys, this`appLoads
      modifies paging`mem, paging`node, paging`role, paging.mm.allocMap
      ensures ok ==>
        && RootCurrent() && NodesKept(old(paging.node), paging.node) && home == old(home)
        && task in contexts && contexts == old(contexts)[task := contexts[task]]
        && Root(Template(file)) in paging.node
        && appLoads == old(appLoads)[file := AppLoadInfo(EndOf(gs), paging.node[Root(Template(file))])]
        && sys == old(sys).(images := old(sys).images[file := Image(LoadSegments(gs), EndOf(gs))])
        && (forall b :: b != Template(file) ==> FramesOf(paging.S(), b) == old(FramesOf(paging.S(), b)))
      ensures !ok ==> paging.mm.Valid() && paging.Exhausted()
    {
      hide World, FramesOf, LoadSegments, EndOf, Tree, Alloc, FramesOfRange, NoPages, EmptyFrom;
      ghost var sys0 := sys;
      WorldTree(paging.S(), home, kernel, sys);
      var temp;
      temp, ok := NewSpace(task, Template(file), home, sys.(images := sys.images[file := Image(map[], EndOf(gs))]));
      if !ok {
        return;
      }
      ghost var sys1 := sys;
      var lastAddr;
      lastAddr, ok := CopyLoadSegments(gs, file);
      if !ok {
        return;
      }
      LoadedSystem(sys0, sys1, file, LoadSegments(gs), EndOf(gs));
      appLoads := appLoads[file := AppLoadInfo(lastAddr, temp)];
    }

    /** A task's own root and read-only access to the pages of a cached image. */
    method CloneTemplate(task: nat, file: nat) returns (pml4: nat, ok: bool)
      requires RootCurrent() && task !in sys.apps && file in sys.images
      requires file in appLoads && Root(Template(file)) in paging.node
      requires appLoads[file].pml4 == paging.node[Root(Template(file))]
      modifies this`cr3, this`contexts, this`home, this`sys, this`tasks
      modifies paging`mem, paging`node, paging`role, paging.mm.allocMap
      ensures ok ==>
        && Current(App(task)) && cr3 == pml4 && NodesKept(old(paging.node), paging.node)
        && contexts == old(contexts)[task := pml4]
        && tasks == old(tasks)[task := NEW_TASK]
        && sys == old(sys).(apps := old(sys).apps[task := Application(file, old(sys).images[file].pages, NEW_TASK)])
        && (forall b :: b != App(task) ==> FramesOf(paging.S(), b) == old(FramesOf(paging.S(), b)))
      ensures !ok ==> paging.mm.Valid() && paging.Exhausted()
    {
      hide World, FramesOf, NoPages, EmptyFrom, CopiesRange, Extends, FramesOfRange, Tree, Alloc;
      ghost var sys0, a := sys, App(task);
      WorldTree(paging.S(), home, kernel, sys);
      pml4, ok := NewSpace(task, a, home[task := file], sys.(apps := sys.apps[task := Application(file, map[], NEW_TASK)]));
      if !ok {
        return;
      }
      tasks := tasks[task := NEW_TASK];
      ghost var s1, sys1 := paging.S(), sys;
      WorldTree(s1, home, kernel, sys);
      RootRange();
      ok := paging.CopyPageMaps(pml4, appLoads[file].pml4, 4, USER_INDEX, Root(a), Root(Template(file)));
      if !ok {
        return;
      }
      ghost var s2 := paging.S();
      WorldCopies(s1, s2, home, kernel, sys, task);
      CopiesKeepNodes(s1, s2, a, Template(file));
      sys := WithPages(sys, a, PagesOf(sys, Template(file)));
      ClonedSystem(sys0, sys1, task, file);
      WorldRoot(s2, home, kernel, sys, a);
    }

    /** Gives the task an address space that sees the image of the file, loading the image if it is not cached. */
    method LoadApp(task: nat, file: nat, gs: seq<Segment>) returns (ok: bool)
      requires Valid() && RootCurrent() && task !in sys.apps && (file !in sys.images ==> ValidSegments(gs))
      modifies this`cr3, this`contexts, this`home, this`sys, this`tasks, this`appLoads
      modifies paging`mem, paging`node, paging`role, paging.mm.allocMap
      ensures ok ==> Current(App(task)) && Records() && ImagesBelowStack(sys)
      ensures ok ==>
        var image := ImageFor(old(sys), file, gs);
        sys == System(old(sys).images[file := image], old(sys).apps[task := Application(file, image.pages, NEW_TASK)])
      ensures ok ==> forall b :: b != App(task) && (b == Template(file) ==> file in old(sys).images) ==>
        FramesOf(paging.S(), b) == old(FramesOf(paging.S(), b))
      ensures !ok ==> paging.mm.Valid() && paging.Exhausted()
    {
      hide World, FramesOf, LoadSegments, EndOf, Tree, Alloc, RecordsMatch, NodesKept, FramesOfRange, ImagesBelowStack;
      ghost var sys0, node0 := sys, paging.node;
      RecordedKeys(node0, sys, contexts, tasks, appLoads);
      ok := true;
      if file !in appLoads {
        ok := LoadImage(task, file, gs);
        if !ok {
          return;
        }
      } else {
        NodesKeptSame(node0);
      }
      ghost var sys1, node1 := sys, paging.node;
      RecordedImage(node0, node1, sys0, sys1, old(contexts), tasks, old(appLoads), appLoads, file);
      var pml4;
      pml4, ok := CloneTemplate(task, file);
      if ok {
        RecordedTask(node1, paging.node, sys1, sys, old(contexts), contexts, old(tasks), appLoads, task);
        LoadedApp(sys0, sys1, sys, task, file, gs);
      }
    }

    /** Maps writable pages in the running task, which must not have any of them yet. */
    method SetupPageMaps(v: nat, n: nat, ghost task: nat) returns (ok: bool)
      requires Current(App(task)) && InUser(v) && v + n <= USER_HI && Absent(PagesOf(sys, App(task)), v, v + n)
      modifies paging`mem, paging`node, paging`role, paging.mm.allocMap, this`sys
      ensures ok ==> Current(App(task)) && NodesKept(old(paging.node), paging.node)
      ensures ok ==> sys == WithPages(old(sys), App(task), WithZeroPages(PagesOf(old(sys), App(task)), v, v + n))
      ensures ok && n > 0 ==> MayWrite(paging.S(), home, App(task), v)
      ensures ok ==> forall b :: b != App(task) ==> FramesOf(paging.S(), b) == old(FramesOf(paging.S(), b))
      ensures !ok ==> paging.mm.Valid() && paging.Exhausted()
    {
      hide World, MapsRange, FramesOf, WithPages, PagesOf, WithZeroPages, NoneBorrowed, Absent, MayWrite, FramesOfRange, Tree;
      ghost var s, a := paging.S(), App(task);
      AddressPage(v, 0);
      RootCovers(v);
      WorldTree(s, home, kernel, sys);
      AbsentNotBorrowed(s, home, kernel, sys, task, v, v + n);
      ghost var done;
      var remain;
      remain, ok, done := paging.SetupPageMap(cr3, 4, AddressOf(v, 0), n, true, Root(a));
      if !ok {
        return;
      }
      WorldMaps(s, paging.S(), home, kernel, sys, a, v, done);
      MapsKeepNodes(s, paging.S(), a, v, done, true);
      if n > 0 {
        MappedWritable(s, paging.S(), home, task, v, done);
      }
      WithPagesHas(sys, a, WithZeroPages(PagesOf(sys, a), v, done));
      sys := WithPages(sys, a, WithZeroPages(PagesOf(sys, a), v, done));
      WorldRoot(paging.S(), home, kernel, sys, a);
    }

    /** The stack and the page of arguments of the running task. */
    method MapStackAndArgs(ghost task: nat) returns (ok: bool)
      requires Current(App(task)) && Absent(PagesOf(sys, App(task)), STACK_LO, ARGS_PAGE + 1)
      modifies paging`mem, paging`node, paging`role, paging.mm.allocMap, this`sys
      ensures ok ==> Current(App(task)) && NodesKept(old(paging.node), paging.node)
      ensures ok ==> sys == WithStack(old(sys), task)
      ensures ok ==> forall b :: b != App(task) ==> FramesOf(paging.S(), b) == old(FramesOf(paging.S(), b))
      ensures !ok ==> paging.mm.Valid() && paging.Exhausted()
    {
      hide World, FramesOf, Tree, Alloc, WithPages, PagesOf, WithZeroPages, Absent, FramesOfRange, MayWrite;
      ghost var sys0 := sys;
      AbsentParts(sys, task);
      ok := SetupPageMaps(STACK_LO, 256, task);
      if !ok {
        return;
      }
      ArgsAbsent(sys0, task);
      ok := SetupPageMaps(ARGS_PAGE, 1, task);
    }

    /** New demand-paging and file-mapping ranges for a task. */
    method SetRanges(task: nat, mem: TaskMem)
      requires Sound() && Records() && task in sys.apps
      modifies this`tasks, this`sys
      ensures Sound() && Records() && tasks == old(tasks)[task := mem]
      ensures sys == WithRanges(old(sys), task, mem)
    {
      hide World, RecordsMatch, WithRanges;
      RangesChange(paging.S(), home, kernel, sys, paging.node, contexts, tasks, appLoads, task, mem);
      tasks := tasks[task := mem];
      sys := WithRanges(sys, task, mem);
    }

    /** The memory part of `ExecuteFile` up to the call of the application: the image, the stack, the page of
        arguments, and empty demand-paging and file-mapping ranges. */
    method StartApp(task: nat, file: nat, gs: seq<Segment>) returns (ok: bool)
      requires Valid() && Legal(sys, Start(task, file, gs))
      modifies this`cr3, this`contexts, this`home, this`sys, this`tasks, this`appLoads
      modifies paging`mem, paging`node, paging`role, paging.mm.allocMap
      ensures ok ==> Valid() && sys == Step(old(sys), Start(task, file, gs)).0
      ensures ok ==> forall b :: b != App(task) && (b == Template(file) ==> file in old(sys).images) ==>
        FramesOf(paging.S(), b) == old(FramesOf(paging.S(), b))
      ensures !ok ==> paging.mm.Valid() && paging.Exhausted()
    {
      hide World, FramesOf, LoadSegments, EndOf, Tree, Alloc, ImageFor, RecordsMatch, NodesKept,
        WithStack, PagesOf, ImagesBelowStack, Absent, Step, Legal, FramesOfRange, WithRanges;
      ghost var sys0 := sys;
      LegalStart(sys, task, file, gs);
      cr3 := kernelRoot;
      WorldKernelRoot(paging.S(), home, kernel, sys);
      ok := LoadApp(task, file, gs);
      if !ok {
        return;
      }
      ghost var sys1, node1 := sys, paging.node;
      StackAbsent(sys0, sys1, task, file, gs);
      ok := MapStackAndArgs(task);
      if !ok {
        return;
      }
      StackRecorded(node1, paging.node, sys1, contexts, tasks, appLoads, task, file);
      var dp := (appLoads[file].vaddrEnd + (ENTRIES - 1)) / ENTRIES;
      SetRanges(task, TaskMem(dp, dp, [], STACK_LO));
      StartedSystem(sys0, sys1, task, file, gs);
    }

    // ----- running

    /** The task is the current one. */
    ghost predicate Running(task: nat)
      reads this, paging, paging.mm, paging.mm.allocMap
    {
      Valid() && Current(App(task))
    }

    /** A context switch to the task. */
    method SwitchTo(task: nat)
      requires Valid() && task in sys.apps
      modifies this`cr3
      ensures Running(task)
    {
      hide World, RecordsMatch, Tree, FramesOfRange, ImagesBelowStack;
      TaskRecord(paging.node, sys, contexts, tasks, appLoads, task);
      WorldRoot(paging.S(), home, kernel, sys, App(task));
      cr3 := contexts[task];
    }

    /** Demand paging: a zeroed page. */
    method DemandPage(task: nat, v: nat) returns (ok: bool)
      requires Running(task) && InUser(v) && v !in sys.apps[task].pages
      modifies paging`mem, paging`node, paging`role, paging.mm.allocMap, this`sys
      ensures ok ==> Running(task) && MayWrite(paging.S(), home, App(task), v)
      ensures ok ==> sys == WithPages(old(sys), App(task), old(sys).apps[task].pages[v := ZeroPage()])
      ensures ok ==> forall b :: b != App(task) ==> FramesOf(paging.S(), b) == old(FramesOf(paging.S(), b))
      ensures !ok ==> paging.mm.Valid() && paging.Exhausted()
    {
      hide World, FramesOf, RecordsMatch, NodesKept, WithZeroPages, MayWrite, FramesOfRange, Tree, ImagesBelowStack, Absent, WithPages;
      ghost var sys0, node0 := sys, paging.node;
      OnePage(sys0.apps[task].pages, v);
      ok := SetupPageMaps(v, 1, task);
      if ok {
        RecordsKept(node0, paging.node, sys0, contexts, tasks, appLoads, task, sys0.apps[task].pages[v := ZeroPage()]);
        ImagesUntouched(sys0, App(task), sys0.apps[task].pages[v := ZeroPage()]);
      }
    }

    /** Writes the frame of a page the running task owns. */
    method StorePage(task: nat, v: nat, page: Page)
      requires Running(task) && MayWrite(paging.S(), home, App(task), v)
      modifies paging`mem, this`sys
      ensures Running(task) && paging.role == old(paging.role) && paging.node == old(paging.node)
      ensures sys == WithPages(old(sys), App(task), old(sys).apps[task].pages[v := page])
    {
      hide World, Leaf, RecordsMatch, FramesOfRange, ImagesBelowStack, MayWrite, WithPages;
      ghost var s, a := paging.S(), App(task);
      ghost var pages := PagesOf(sys, a)[v := page];
      OwnedPresent(s, home, a, v);
      WorldWalk(s, home, kernel, sys, a, v);
      var frame := Walk(paging.mem, cr3, 4, v, true, true).frame;
      paging.mem := paging.mem[frame := page];
      WorldWrites(s, home, kernel, sys, a, v, page);
      assert paging.S() == WritePage(s, a, v, page);
      NodesKeptSame(s.node);
      RecordsKept(s.node, paging.node, sys, contexts, tasks, appLoads, task, pages);
      ImagesUntouched(sys, a, pages);
      WithPagesHas(sys, a, pages);
      sys := WithPages(sys, a, pages);
      WorldTree(paging.S(), home, kernel, sys);
      WorldRoot(paging.S(), home, kernel, sys, a);
    }

    /** A page of a mapped file: a new page filled from the file. */
    method PreparePageCache(task: nat, m: FileMapping, v: nat) returns (ok: bool)
      requires Running(task) && InUser(v) && v !in sys.apps[task].pages && m.begin <= v
      modifies paging`mem, paging`node, paging`role, paging.mm.allocMap, this`sys
      ensures ok ==> Running(task) && sys == WithPages(old(sys), App(task), old(sys).apps[task].pages[v := FilePage(m, v)])
      ensures ok ==> forall b :: b != App(task) ==> FramesOf(paging.S(), b) == old(FramesOf(paging.S(), b))
      ensures !ok ==> paging.mm.Valid() && paging.Exhausted()
    {
      hide World, FramesOf, RecordsMatch, FramesOfRange, Tree, ImagesBelowStack, MayWrite, WithPages, FilePage;
      ghost var sys0 := sys;
      ok := DemandPage(task, v);
      if !ok {
        return;
      }
      ghost var s1 := paging.S();
      StorePage(task, v, FilePage(m, v));
      FramesByRole(s1, paging.S());
      FilledTwice(sys0, task, v, ZeroPage(), FilePage(m, v));
    }

    /** Copy on write for the running task: invisible, but the page can be written afterwards. */
    method CopyPage(task: nat, v: nat) returns (ok: bool)
      requires Running(task) && InUser(v) && Leaf(paging.S(), App(task), v).present
      requires !Leaf(paging.S(), App(task), v).writable
      modifies paging`mem, paging`node, paging`role, paging.mm.allocMap
      ensures ok ==> Running(task) && MayWrite(paging.S(), home, App(task), v)
      ensures ok ==> forall b :: b != App(task) ==> FramesOf(paging.S(), b) == old(FramesOf(paging.S(), b))
      ensures !ok ==> paging.mm.Valid() && paging.Exhausted()
    {
      hide World, FramesOf, RecordsMatch, FramesOfRange, ImagesBelowStack, Leaf, PageTaken, NodesKept;
      ghost var s, a := paging.S(), App(task);
      WorldWalk(s, home, kernel, sys, a, v);
      AddressPage(v, 0);
      ok := paging.CopyOnePage(cr3, AddressOf(v, 0), a);
      if !ok {
        return;
      }
      WorldTree(s, home, kernel, sys);
      WorldTakes(s, paging.S(), home, kernel, sys, task, v);
      TakenNodes(s, paging.S(), a, v);
      WithSamePages(sys, a);
      RecordsKept(s.node, paging.node, sys, contexts, tasks, appLoads, task, PagesOf(sys, a));
      TaskRecord(s.node, sys, contexts, tasks, appLoads, task);
      TaskRecord(paging.node, sys, contexts, tasks, appLoads, task);
      WorldRoot(paging.S(), home, kernel, sys, a);
    }

    /** The page-fault handler, for a fault of the running task on a page of the user half; the flags are those
        of the error code. */
    method HandlePageFault(task: nat, v: nat, present: bool, rw: bool, user: bool) returns (r: FaultResult)
      requires Running(task) && InUser(v)
      requires present <==> v in sys.apps[task].pages
      requires present && rw && user ==> Leaf(paging.S(), App(task), v).present && !Leaf(paging.S(), App(task), v).writable
      modifies paging`mem, paging`node, paging`role, paging.mm.allocMap, this`sys
      ensures !r.NoMemory? ==> Running(task)
      ensures r.Resolved? && present ==> rw && user && sys == old(sys) && MayWrite(paging.S(), home, App(task), v)
      ensures r.Resolved? && !present ==>
        && FillOf(old(sys).apps[task].mem, v).Some?
        && sys == WithPages(old(sys), App(task), old(sys).apps[task].pages[v := FillOf(old(sys).apps[task].mem, v).value])
      ensures r.Refused? ==> sys == old(sys) && if present then !(rw && user) else FillOf(old(sys).apps[task].mem, v).None?
      ensures !r.NoMemory? ==> forall b :: b != App(task) ==> FramesOf(paging.S(), b) == old(FramesOf(paging.S(), b))
      ensures r.NoMemory? ==> paging.mm.Valid() && paging.Exhausted()
    {
      hide World, FramesOf, RecordsMatch, FramesOfRange, ImagesBelowStack, Leaf, MayWrite, Tree, FilePage, WithPages;
      if present && rw && user {
        var ok := CopyPage(task, v);
        return if ok then Resolved else NoMemory;
      } else if present {
        return Refused;
      }
      TaskRecord(paging.node, sys, contexts, tasks, appLoads, task);
      if tasks[task].dpBegin <= v < tasks[task].dpEnd {
        var ok := DemandPage(task, v);
        return if ok then Resolved else NoMemory;
      }
      match FindFileMapping(tasks[task].fileMaps, v)
      case Some(m) =>
        var ok := PreparePageCache(task, m, v);
        return if ok then Resolved else NoMemory;
      case None =>
        return Refused;
    }

    /** The first access to a page: when it is not present the fault is handled and the access repeated. */
    method BringIn(task: nat, v: nat, rw: bool) returns (t: Translation, r: FaultResult)
      requires Running(task) && InUser(v)
      modifies paging`mem, paging`node, paging`role, paging.mm.allocMap, this`sys
      ensures !r.NoMemory? ==> Running(task)
      ensures r.Resolved? ==> Fetched(old(sys), sys, task, v)
      ensures r.Resolved? ==> Translated(paging.S(), sys, task, v, t)
      ensures r.Refused? ==> sys == old(sys) && Touched(old(sys).apps[task], v).None?
      ensures !r.NoMemory? ==> forall b :: b != App(task) ==> FramesOf(paging.S(), b) == old(FramesOf(paging.S(), b))
      ensures r.NoMemory? ==> paging.mm.Valid() && paging.Exhausted()
    {
      hide World, FramesOf, RecordsMatch, FramesOfRange, ImagesBelowStack, Leaf, MayWrite, Tree, FillOf;
      WorldWalk(paging.S(), home, kernel, sys, App(task), v);
      SameApp(sys, task);
      t := Walk(paging.mem, cr3, 4, v, true, true);
      r := Resolved;
      if t.NotPresent? {
        r := HandlePageFault(task, v, false, rw, true);
        if !r.Resolved? {
          return;
        }
        WorldWalk(paging.S(), home, kernel, sys, App(task), v);
        t := Walk(paging.mem, cr3, 4, v, true, true);
      }
    }

    /** A load instruction of the running task. */
    method UserRead(task: nat, v: nat, i: nat) returns (o: Outcome, ok: bool)
      requires Running(task) && Legal(sys, Read(task, v, i))
      modifies paging`mem, paging`node, paging`role, paging.mm.allocMap, this`sys
      ensures ok ==> Running(task) && (sys, o) == Step(old(sys), Read(task, v, i))
      ensures ok ==> forall b :: b != App(task) ==> FramesOf(paging.S(), b) == old(FramesOf(paging.S(), b))
      ensures !ok ==> paging.mm.Valid() && paging.Exhausted()
    {
      hide World, FramesOf, RecordsMatch, FramesOfRange, ImagesBelowStack, Leaf, Tree, Touched;
      var t, r := BringIn(task, v, false);
      match r
      case NoMemory => return Fault, false;
      case Refused => return Fault, true;
      case Resolved => return Value(paging.mem[t.frame][i]), true;
    }

    /** A store instruction of the running task: a second fault makes a borrowed page private. */
    method UserWrite(task: nat, v: nat, i: nat, w: Word) returns (o: Outcome, ok: bool)
      requires Running(task) && Legal(sys, Write(task, v, i, w))
      modifies paging`mem, paging`node, paging`role, paging.mm.allocMap, this`sys
      ensures ok ==> Running(task) && (sys, o) == Step(old(sys), Write(task, v, i, w))
      ensures ok ==> forall b :: b != App(task) ==> FramesOf(paging.S(), b) == old(FramesOf(paging.S(), b))
      ensures !ok ==> paging.mm.Valid() && paging.Exhausted()
    {
      hide World, FramesOf, RecordsMatch, FramesOfRange, ImagesBelowStack, Leaf, MayWrite, Tree, Touched;
      ghost var sys0 := sys;
      var t, r := BringIn(task, v, true);
      if r.NoMemory? {
        return Fault, false;
      } else if r.Refused? {
        return Fault, true;
      }
      if !t.writable {
        var copied := HandlePageFault(task, v, true, true, true);
        if copied.NoMemory? {
          return Fault, false;
        }
        WorldWalk(paging.S(), home, kernel, sys, App(task), v);
        OwnedPresent(paging.S(), home, App(task), v);
        t := Walk(paging.mem, cr3, 4, v, true, true);
      } else {
        WritablePage(paging.S(), home, task, v);
      }
      ghost var s2 := paging.S();
      var page := paging.mem[t.frame][i := w];
      StorePage(task, v, page);
      FramesByRole(s2, paging.S());
      StoredWord(sys0, task, Touched(sys0.apps[task], v).value, v, page);
      return Done, true;
    }

    /** The system call that extends the demand-paged range. */
    method DemandPagesCall(task: nat, n: nat) returns (o: Outcome)
      requires Running(task) && Legal(sys, DemandPages(task, n))
      modifies this`tasks, this`sys
      ensures Running(task) && (sys, o) == Step(old(sys), DemandPages(task, n))
    {
      hide World, RecordsMatch, FramesOfRange, Tree, ImagesBelowStack;
      TaskRecord(paging.node, sys, contexts, tasks, appLoads, task);
      var dpEnd := tasks[task].dpEnd;
      RangesUntouched(sys, task, tasks[task].(dpEnd := dpEnd + n));
      SetRanges(task, tasks[task].(dpEnd := dpEnd + n));
      return Mapping(dpEnd);
    }

    /** The system call that maps a file below the mappings made so far. */
    method MapFileCall(task: nat, content: seq<Word>) returns (o: Outcome)
      requires Running(task) && Legal(sys, MapFile(task, content))
      modifies this`tasks, this`sys
      ensures Running(task) && (sys, o) == Step(old(sys), MapFile(task, content))
    {
      hide World, RecordsMatch, FramesOfRange, Tree, ImagesBelowStack;
      TaskRecord(paging.node, sys, contexts, tasks, appLoads, task);
      var end := tasks[task].fileMapEnd;
      var begin := (end * ENTRIES - |content|) / ENTRIES;
      var mem := tasks[task].(fileMapEnd := begin, fileMaps := tasks[task].fileMaps + [FileMapping(begin, end, content)]);
      RangesUntouched(sys, task, mem);
      SetRanges(task, mem);
      return Mapping(begin);
    }

    // ----- exit

    /** Unmaps the user half of the running task. */
    method CleanPageMaps(task: nat)
      requires Running(task)
      modifies paging`mem, paging`node, paging`role, paging`frees, paging.mm.allocMap
      ensures paging.Inv() && Cleans(old(paging.S()), paging.S(), App(task), 4, USER_LO, USER_HI)
      ensures paging.Ledger() == old(paging.Ledger())
    {
      hide World, FramesOf, RecordsMatch, FramesOfRange, ImagesBelowStack, Cleans, LeavesOwned, Tree, Alloc, PagingUnit.Ledger;
      WorldTree(paging.S(), home, kernel, sys);
      WorldOwns(paging.S(), home, kernel, sys, task);
      AddressPage(USER_LO, 0);
      RootRange();
      paging.CleanPageMap(cr3, 4, AddressOf(USER_LO, 0), Root(App(task)));
    }

    /** The running task, whose user half was cleaned after state `s`, gives its root back; the kernel's root
        becomes current. */
    method FreePML4(task: nat, ghost s: Memory)
      requires paging.Inv() && Cleans(s, paging.S(), App(task), 4, USER_LO, USER_HI) && task in sys.apps
      requires World(s, home, kernel, sys) && kernel.root == kernelRoot
      requires RecordsMatch(s.node, sys, contexts, tasks, appLoads)
      modifies this`cr3, this`contexts, this`tasks, this`home, this`sys
      modifies paging`node, paging`role, paging`frees, paging.mm.allocMap
      ensures Sound() && Records() && Root(App(task)) in old(paging.node)
      ensures paging.S() == RemoveRoot(old(paging.S()), App(task))
      ensures home == old(home) - {task} && sys == old(sys).(apps := old(sys).apps - {task})
      ensures paging.Ledger() == old(paging.Ledger())
    {
      hide World, FramesOf, RecordsMatch, FramesOfRange, Cleans, Tree, Alloc, PagingUnit.Ledger, RemoveRoot;
      ghost var s1, a := paging.S(), App(task);
      RootFreed(s, s1, home, kernel, sys, contexts, tasks, appLoads, task);
      var root := contexts[task];
      FrameFits(paging.mem.Keys, paging.mm.rangeBegin, paging.mm.rangeEnd, root);
      contexts := contexts - {task};
      cr3 := kernelRoot;
      paging.FreeRoot(root, a);
      tasks := tasks - {task};
      home, sys := home - {task}, sys.(apps := sys.apps - {task});
    }

    /** The normal end of `ExecuteFile`: the user half is cleaned and the root table freed. The frames that
        become free are exactly those the task owned, and every call that frees a frame frees one in use. */
    method ExitApp(task: nat)
      requires Running(task)
      modifies this`cr3, this`contexts, this`tasks, this`home, this`sys
      modifies paging`mem, paging`node, paging`role, paging`frees, paging.mm.allocMap
      ensures Valid() && sys == old(sys).(apps := old(sys).apps - {task})
      ensures paging.mm.Allocated() == old(paging.mm.Allocated()) - old(FramesOf(paging.S(), App(task)))
      ensures paging.Ledger() == old(paging.Ledger())
      ensures forall b :: b != App(task) ==> FramesOf(paging.S(), b) == old(FramesOf(paging.S(), b))
    {
      hide World, FramesOf, RecordsMatch, FramesOfRange, ImagesBelowStack, Cleans, Tree, Alloc, PagingUnit.Ledger, RemoveRoot;
      ghost var s, sys0 := paging.S(), sys;
      WorldTree(s, home, kernel, sys);
      CleanPageMaps(task);
      ghost var s1 := paging.S();
      FreePML4(task, s);
      WorldExits(s, s1, old(home), kernel, sys0, task);
      ImagesAfterExit(sys0, task);
    }

    // ----- whole runs

    /** Whether an operation leaves the frames of a space alone. */
    ghost predicate Unconcerned(op: Op, b: Space)
      reads this
    {
      b != App(op.task) && !(op.Start? && b == Template(op.file) && op.file !in sys.images)
    }

    /** One operation of some task, on the shared page tables. */
    method Execute(op: Op) returns (o: Outcome, ok: bool)
      requires Valid() && Legal(sys, op)
      modifies this`cr3, this`contexts, this`tasks, this`home, this`sys, this`appLoads
      modifies paging`mem, paging`node, paging`role, paging`frees, paging.mm.allocMap
      ensures ok ==> Valid() && (sys, o) == Step(old(sys), op)
      ensures ok ==> forall b :: old(Unconcerned(op, b)) ==> FramesOf(paging.S(), b) == old(FramesOf(paging.S(), b))
      ensures !ok ==> paging.mm.Valid() && paging.Exhausted()
    {
      hide World, FramesOf, RecordsMatch, FramesOfRange, ImagesBelowStack, PagingUnit.Inv, Touched, ImageFor;
      match op
      case Start(t, f, gs) =>
        ok := StartApp(t, f, gs);
        o := Done;
      case Read(t, v, i) =>
        SwitchTo(t);
        o, ok := UserRead(t, v, i);
      case Write(t, v, i, w) =>
        SwitchTo(t);
        o, ok := UserWrite(t, v, i, w);
      case DemandPages(t, n) =>
        SwitchTo(t);
        o := DemandPagesCall(t, n);
        ok := true;
      case MapFile(t, content) =>
        SwitchTo(t);
        o := MapFileCall(t, content);
        ok := true;
      case Exit(t) =>
        SwitchTo(t);
        ExitApp(t);
        o, ok := Done, true;
    }

    lemma AllocatedIs()
      requires Valid()
      ensures paging.mm.Allocated() == Alloc(paging.S())
    {}

    /** Runs any sequence of operations of any tasks. The shared page tables with copy on write show every task
        exactly what eager private copies would. The frames in use apart from those of the acting tasks and of the
        images that the run caches stay the same, so that once these tasks have exited only these images have been
        added, whatever applications stay alive, and nothing at all if every file was cached before. */
    method Run(ops: seq<Op>) returns (outs: seq<Outcome>, ok: bool)
      requires Valid() && AllLegal(sys, ops)
      modifies this`cr3, this`contexts, this`tasks, this`home, this`sys, this`appLoads
      modifies paging`mem, paging`node, paging`role, paging`frees, paging.mm.allocMap
      ensures ok ==> Valid() && sys == Final(old(sys), ops) && outs == Outcomes(old(sys), ops)
      ensures !ok ==> outs < Outcomes(old(sys), ops) && paging.mm.Valid() && paging.Exhausted()
      ensures ok ==> var spaces := Actors(ops) + NewImages(old(sys), ops);
        paging.mm.Allocated() - OwnedBy(paging.S(), spaces) == old(paging.mm.Allocated()) - OwnedBy(old(paging.S()), spaces)
      ensures ok && (forall t :: t in Acting(ops) ==> t !in old(sys).apps && t !in sys.apps) ==>
        && paging.mm.Allocated() - OwnedBy(paging.S(), NewImages(old(sys), ops)) == old(paging.mm.Allocated())
        && (AllCached(old(sys), ops) ==> paging.mm.Allocated() == old(paging.mm.Allocated()))
    {
      hide World, FramesOf, RecordsMatch, FramesOfRange, ImagesBelowStack, PagingUnit.Inv, Step, Final, Outcomes, Legal, AllLegal;
      hide Tree, Alloc, OwnedBy, Actors, NewImages;
      ghost var sys0, s0, home0, spaces := sys, paging.S(), home, Actors(ops) + NewImages(sys, ops);
      outs, ok := [], true;
      RunStart(sys0, ops);
      AllocatedIs();
      WorldTree(s0, home0, kernel, sys0);
      for i := 0 to |ops|
        invariant Valid() && |outs| == i && AllLegal(sys, ops[i..])
        invariant Final(sys, ops[i..]) == Final(sys0, ops) && outs + Outcomes(sys, ops[i..]) == Outcomes(sys0, ops)
        invariant sys0.images.Keys <= sys.images.Keys
        invariant forall b: Space :: b !in spaces ==> FramesOf(paging.S(), b) == FramesOf(s0, b)
      {
        RunStep(sys0, ops, i, sys, outs);
        ImagesStay(sys, ops[i]);
        TakesPart(sys0, ops, i);
        var o;
        o, ok := Execute(ops[i]);
        if !ok {
          return;
        }
        outs := outs + [o];
      }
      RunEnd(sys, ops, outs);
      AllocatedIs();
      WorldTree(paging.S(), home, kernel, sys);
      OthersSame(s0, paging.S(), spaces);
      if (forall t :: t in Acting(ops) ==> t !in sys0.apps && t !in sys.apps) {
        SpacesLeft(sys0, sys, ops);
        ImagesLeft(s0, paging.S(), home0, home, kernel, sys0, sys, Actors(ops), NewImages(sys0, ops));
      }
    }
  }
}
