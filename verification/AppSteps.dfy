/** Facts about the records of loaded files and running tasks, and about steps of the application model. */
module AppSteps {
  import opened Basics
  import opened PageTables
  import opened PageGrowth
  import opened PageCopy
  import opened PageClean
  import opened CopyOnWrite
  import opened SpaceLifecycle
  import opened AppModel
  import opened AppWorld

  datatype AppLoadInfo = AppLoadInfo(vaddrEnd: nat, pml4: nat)

  /** The memory ranges of a task that was just created. */
  const NEW_TASK := TaskMem(0, 0, [], 0)

  /** The recorded root frames are those of the running tasks and of the cached images. */
  ghost predicate RecordsMatch(node: map<Pos, nat>, sys: System, contexts: map<nat, nat>, tasks: map<nat, TaskMem>,
                               appLoads: map<nat, AppLoadInfo>) {
    && contexts.Keys == sys.apps.Keys && tasks.Keys == sys.apps.Keys
    && (forall t :: t in contexts ==> Root(App(t)) in node && contexts[t] == node[Root(App(t))] && tasks[t] == sys.apps[t].mem)
    && appLoads.Keys == sys.images.Keys
    && (forall f :: f in appLoads ==>
          && appLoads[f].vaddrEnd == sys.images[f].end
          && Root(Template(f)) in node && appLoads[f].pml4 == node[Root(Template(f))])
  }

  ghost predicate NodesKept(node: map<Pos, nat>, node': map<Pos, nat>) {
    forall p :: p in node ==> p in node' && node'[p] == node[p]
  }

  lemma NodesKeptSame(node: map<Pos, nat>)
    ensures NodesKept(node, node)
  {}

  lemma MapsKeepNodes(s: Memory, s': Memory, a: Space, lo: nat, hi: nat, w: bool)
    requires MapsRange(s, s', a, lo, hi, w)
    ensures NodesKept(s.node, s'.node)
  {}

  lemma CopiesKeepNodes(s: Memory, s': Memory, a: Space, t: Space)
    requires CopiesRange(s, s', a, t, USER_LO, USER_HI)
    ensures NodesKept(s.node, s'.node)
  {}

  lemma TakenNodes(s: Memory, s': Memory, a: Space, v: nat)
    requires PageTaken(s, s', a, v)
    ensures NodesKept(s.node, s'.node)
  {}

  lemma AddRootFields(s: Memory, a: Space, f: nat, page: Page)
    requires Root(a) !in s.node
    ensures AddRoot(s, a, f, page) == Memory(s.mem[f := page], s.node[Root(a) := f], s.role[f := Root(a)], s.base)
    ensures NodesKept(s.node, s.node[Root(a) := f])
  {}

  lemma AddedHas(sys: System, sys': System, home: map<nat, nat>, home': map<nat, nat>, a: Space)
    requires Adds(sys, sys', home, home', a)
    ensures Has(sys', a)
  {}

  lemma WithPagesHas(sys: System, a: Space, pages: Pages)
    requires Has(sys, a)
    ensures Has(WithPages(sys, a, pages), a) && PagesOf(WithPages(sys, a, pages), a) == pages
    ensures a.Template? ==> forall g :: g in WithPages(sys, a, pages).images <==> g in sys.images
  {}

  // ----- addresses

  lemma AddressPage(v: nat, offset: nat)
    requires InUser(v) && offset < 4096
    ensures AddressOf(v, offset).Valid() && AddressOf(v, offset).PageNumber() == v
  {}

  /** The root table covers the whole user half. */
  lemma RootCovers(v: nat)
    requires InUser(v)
    ensures Ancestor(v, 4) == 0 && First(4, 0) + Span(4) == USER_HI
  {}

  lemma RootRange()
    ensures First(3, 0 * ENTRIES + USER_INDEX) == USER_LO && First(3, 0 * ENTRIES + ENTRIES) == USER_HI
  {}

  // ----- loading

  lemma LoadStart(sys: System, a: Space, g: Segment)
    requires g.Valid() && Has(sys, a)
    ensures WithPages(sys, a, WriteWords(PagesOf(sys, a), g.addr, g.Content()[..0])) == sys
  {
    WithSamePages(sys, a);
  }

  lemma LoadEnd(pages: Pages, g: Segment)
    requires g.Valid()
    ensures WriteWords(WithZeroPages(pages, g.FirstPage(), g.FirstPage() + g.NumPages()), g.addr, g.Content()[..g.memsz])
      == LoadSegment(pages, g)
  {
    assert g.Content()[..g.memsz] == g.Content();
  }

  /** One word of the loading loop. */
  lemma LoadStep(sys: System, a: Space, pages0: Pages, g: Segment, j: nat)
    requires g.Valid() && j < g.memsz && Has(sys, a)
    ensures var p0 := WithZeroPages(pages0, g.FirstPage(), g.FirstPage() + g.NumPages());
      var pages := WriteWords(p0, g.addr, g.Content()[..j]);
      && PagesOf(WithPages(sys, a, pages), a) == pages
      && (g.addr + j) / ENTRIES in pages && InUser((g.addr + j) / ENTRIES)
      && WithPages(WithPages(sys, a, pages), a, WriteWord(pages, g.addr + j, g.Content()[j]))
           == WithPages(sys, a, WriteWords(p0, g.addr, g.Content()[..j + 1]))
      && g.Content()[j] == if j < |g.words| then g.words[j] else NULL_WORD
  {
    var p0 := WithZeroPages(pages0, g.FirstPage(), g.FirstPage() + g.NumPages());
    WordMapped(pages0, g, j);
    hide WithZeroPages, Segment.Valid, WriteWord, WriteWords;
    var pages := WriteWords(p0, g.addr, g.Content()[..j]);
    WriteWordsNext(p0, g.addr, g.Content(), j);
    WithPagesHas(sys, a, pages);
    WithPagesTwice(sys, a, pages, WriteWord(pages, g.addr + j, g.Content()[j]));
  }

  lemma WordMapped(pages0: Pages, g: Segment, j: nat)
    requires g.Valid() && j < g.memsz
    ensures var p0 := WithZeroPages(pages0, g.FirstPage(), g.FirstPage() + g.NumPages());
      (g.addr + j) / ENTRIES in WriteWords(p0, g.addr, g.Content()[..j]) && InUser((g.addr + j) / ENTRIES)
  {
    WriteWordsKeys(WithZeroPages(pages0, g.FirstPage(), g.FirstPage() + g.NumPages()), g.addr, g.Content()[..j]);
    WithZeroPagesAt(pages0, g.FirstPage(), g.FirstPage() + g.NumPages());
    SegmentRange(g);
    WordPage(g.addr, g.memsz, j);
  }

  lemma LoadNothing(sys: System, a: Space)
    requires Has(sys, a) && PagesOf(sys, a) == map[]
    ensures LoadSegments([]) == map[] && EndOf([]) == 0
    ensures WithPages(sys, a, map[]) == sys
  {
    WithSamePages(sys, a);
  }

  lemma LoadedSystem(sys: System, sys1: System, file: nat, pages: Pages, end: nat)
    requires sys1 == sys.(images := sys.images[file := Image(map[], end)])
    ensures WithPages(sys1, Template(file), pages) == sys.(images := sys.images[file := Image(pages, end)])
  {
    assert sys.images[file := Image(map[], end)][file := Image(pages, end)] == sys.images[file := Image(pages, end)];
  }

  lemma ClonedSystem(sys: System, sys1: System, task: nat, file: nat)
    requires Has(sys, Template(file)) && sys1 == sys.(apps := sys.apps[task := Application(file, map[], NEW_TASK)])
    ensures WithPages(sys1, App(task), PagesOf(sys1, Template(file)))
      == sys.(apps := sys.apps[task := Application(file, sys.images[file].pages, NEW_TASK)])
  {
    assert sys.apps[task := Application(file, map[], NEW_TASK)][task := Application(file, sys.images[file].pages, NEW_TASK)]
        == sys.apps[task := Application(file, sys.images[file].pages, NEW_TASK)];
  }

  /** After loading, the system has the image and the new application, and images stay below the stack. */
  lemma LoadedApp(sys: System, sys1: System, sys2: System, task: nat, file: nat, gs: seq<Segment>)
    requires file !in sys.images ==> ValidSegments(gs)
    requires ImagesBelowStack(sys)
    requires if file in sys.images then sys1 == sys
             else sys1 == sys.(images := sys.images[file := Image(LoadSegments(gs), EndOf(gs))])
    requires file in sys1.images
    requires sys2 == sys1.(apps := sys1.apps[task := Application(file, sys1.images[file].pages, NEW_TASK)])
    ensures var image := ImageFor(sys, file, gs);
      sys2 == System(sys.images[file := image], sys.apps[task := Application(file, image.pages, NEW_TASK)])
    ensures ImagesBelowStack(sys2)
  {
    if file in sys.images {
      assert sys.images[file := sys.images[file]] == sys.images;
    } else {
      LoadedBelowStack(gs);
    }
  }

  lemma LegalStart(sys: System, task: nat, file: nat, gs: seq<Segment>)
    requires Legal(sys, Start(task, file, gs))
    ensures task !in sys.apps && (file !in sys.images ==> ValidSegments(gs))
  {}

  // ----- stack and ranges

  ghost function WithStack(sys: System, task: nat): System {
    var sys2 := WithPages(sys, App(task), WithZeroPages(PagesOf(sys, App(task)), STACK_LO, STACK_LO + 256));
    WithPages(sys2, App(task), WithZeroPages(PagesOf(sys2, App(task)), ARGS_PAGE, ARGS_PAGE + 1))
  }

  ghost function WithRanges(sys: System, task: nat, mem: TaskMem): System
    requires task in sys.apps
  {
    sys.(apps := sys.apps[task := sys.apps[task].(mem := mem)])
  }

  lemma AbsentParts(sys: System, task: nat)
    requires Absent(PagesOf(sys, App(task)), STACK_LO, ARGS_PAGE + 1)
    ensures Absent(PagesOf(sys, App(task)), STACK_LO, STACK_LO + 256)
  {}

  lemma ArgsAbsent(sys: System, task: nat)
    requires Has(sys, App(task)) && Absent(PagesOf(sys, App(task)), STACK_LO, ARGS_PAGE + 1)
    ensures Absent(PagesOf(WithPages(sys, App(task), WithZeroPages(PagesOf(sys, App(task)), STACK_LO, STACK_LO + 256)), App(task)),
                   ARGS_PAGE, ARGS_PAGE + 1)
  {
    WithZeroPagesAt(PagesOf(sys, App(task)), STACK_LO, STACK_LO + 256);
    WithPagesHas(sys, App(task), WithZeroPages(PagesOf(sys, App(task)), STACK_LO, STACK_LO + 256));
  }

  /** After loading, the task has no page in the stack area. */
  lemma StackAbsent(sys: System, sys1: System, task: nat, file: nat, gs: seq<Segment>)
    requires ImagesBelowStack(sys1) && (file !in sys.images ==> ValidSegments(gs))
    requires sys1 == System(sys.images[file := ImageFor(sys, file, gs)],
                            sys.apps[task := Application(file, ImageFor(sys, file, gs).pages, NEW_TASK)])
    ensures Absent(PagesOf(sys1, App(task)), STACK_LO, ARGS_PAGE + 1)
  {
    assert file in sys1.images && sys1.images[file].pages == PagesOf(sys1, App(task));
  }

  lemma StackRecorded(node: map<Pos, nat>, node': map<Pos, nat>, sys: System, contexts: map<nat, nat>,
                      tasks: map<nat, TaskMem>, appLoads: map<nat, AppLoadInfo>, task: nat, file: nat)
    requires RecordsMatch(node, sys, contexts, tasks, appLoads) && NodesKept(node, node') && task in sys.apps
    ensures RecordsMatch(node', WithStack(sys, task), contexts, tasks, appLoads)
    ensures task in WithStack(sys, task).apps
    ensures file in sys.images ==> file in appLoads && appLoads[file].vaddrEnd == sys.images[file].end
  {}

  lemma RangesChange(s: Memory, home: map<nat, nat>, kernel: Kernel, sys: System, node: map<Pos, nat>, contexts: map<nat, nat>,
                     tasks: map<nat, TaskMem>, appLoads: map<nat, AppLoadInfo>, task: nat, mem: TaskMem)
    requires World(s, home, kernel, sys) && task in sys.apps && RecordsMatch(node, sys, contexts, tasks, appLoads)
    ensures World(s, home, kernel, WithRanges(sys, task, mem))
    ensures RecordsMatch(node, WithRanges(sys, task, mem), contexts, tasks[task := mem], appLoads)
  {
    hide Tree, Sharing, KernelHalf, Shows;
    RangesPages(sys, task, mem);
    RangesRecorded(node, sys, contexts, tasks, appLoads, task, mem);
  }

  lemma RangesPages(sys: System, task: nat, mem: TaskMem)
    requires task in sys.apps
    ensures var sys' := WithRanges(sys, task, mem);
      && sys'.images == sys.images && sys'.apps.Keys == sys.apps.Keys
      && forall a :: (Has(sys', a) <==> Has(sys, a)) && PagesOf(sys', a) == PagesOf(sys, a)
  {
    assert WithRanges(sys, task, mem).apps.Keys == sys.apps.Keys + {task};
  }

  lemma RangesRecorded(node: map<Pos, nat>, sys: System, contexts: map<nat, nat>, tasks: map<nat, TaskMem>,
                       appLoads: map<nat, AppLoadInfo>, task: nat, mem: TaskMem)
    requires task in sys.apps && RecordsMatch(node, sys, contexts, tasks, appLoads)
    ensures RecordsMatch(node, WithRanges(sys, task, mem), contexts, tasks[task := mem], appLoads)
  {
    assert WithRanges(sys, task, mem).apps.Keys == sys.apps.Keys + {task};
  }

  lemma StartedSystem(sys: System, sys1: System, task: nat, file: nat, gs: seq<Segment>)
    requires Legal(sys, Start(task, file, gs)) && ImagesBelowStack(sys1)
    requires sys1 == System(sys.images[file := ImageFor(sys, file, gs)],
                            sys.apps[task := Application(file, ImageFor(sys, file, gs).pages, NEW_TASK)])
    ensures task in WithStack(sys1, task).apps
    ensures var dp := (sys1.images[file].end + (ENTRIES - 1)) / ENTRIES;
      var sys4 := WithRanges(WithStack(sys1, task), task, TaskMem(dp, dp, [], STACK_LO));
      sys4 == Step(sys, Start(task, file, gs)).0 && ImagesBelowStack(sys4)
  {
    var image := ImageFor(sys, file, gs);
    var dp := (image.end + (ENTRIES - 1)) / ENTRIES;
    var sys4 := WithRanges(WithStack(sys1, task), task, TaskMem(dp, dp, [], STACK_LO));
    assert sys4.images == sys1.images;
    assert sys4.apps == sys.apps[task := Started(file, image)];
  }

  // ----- records

  lemma RecordedKeys(node: map<Pos, nat>, sys: System, contexts: map<nat, nat>, tasks: map<nat, TaskMem>, appLoads: map<nat, AppLoadInfo>)
    requires RecordsMatch(node, sys, contexts, tasks, appLoads)
    ensures contexts.Keys == sys.apps.Keys && tasks.Keys == sys.apps.Keys && appLoads.Keys == sys.images.Keys
  {}

  /** The image of `file` is on record, and nothing else changed. */
  lemma RecordedImage(node: map<Pos, nat>, node': map<Pos, nat>, sys: System, sys': System, contexts: map<nat, nat>,
                      tasks: map<nat, TaskMem>, appLoads: map<nat, AppLoadInfo>, appLoads': map<nat, AppLoadInfo>, file: nat)
    requires RecordsMatch(node, sys, contexts, tasks, appLoads) && NodesKept(node, node')
    requires if file in appLoads then sys' == sys && appLoads' == appLoads
             else
               && file in sys'.images && sys' == sys.(images := sys.images[file := sys'.images[file]])
               && Root(Template(file)) in node'
               && appLoads' == appLoads[file := AppLoadInfo(sys'.images[file].end, node'[Root(Template(file))])]
    ensures RecordsMatch(node', sys', contexts, tasks, appLoads')
    ensures file in appLoads' && file in sys'.images && Root(Template(file)) in node'
    ensures appLoads'[file].pml4 == node'[Root(Template(file))]
  {}

  lemma RecordedTask(node: map<Pos, nat>, node': map<Pos, nat>, sys: System, sys': System, contexts: map<nat, nat>,
                     contexts': map<nat, nat>, tasks: map<nat, TaskMem>, appLoads: map<nat, AppLoadInfo>, task: nat)
    requires RecordsMatch(node, sys, contexts, tasks, appLoads) && NodesKept(node, node') && task in contexts'
    requires task in sys'.apps && sys' == sys.(apps := sys.apps[task := sys'.apps[task]])
    requires sys'.apps[task].mem == NEW_TASK
    requires contexts'.Keys == contexts.Keys + {task} && forall t :: t in contexts && t != task ==> contexts'[t] == contexts[t]
    requires Root(App(task)) in node' && contexts'[task] == node'[Root(App(task))]
    ensures RecordsMatch(node', sys', contexts', tasks[task := NEW_TASK], appLoads)
  {}

  lemma RecordsKept(node: map<Pos, nat>, node': map<Pos, nat>, sys: System, contexts: map<nat, nat>,
                    tasks: map<nat, TaskMem>, appLoads: map<nat, AppLoadInfo>, task: nat, pages: Pages)
    requires RecordsMatch(node, sys, contexts, tasks, appLoads) && NodesKept(node, node') && task in sys.apps
    ensures RecordsMatch(node', WithPages(sys, App(task), pages), contexts, tasks, appLoads)
  {}

  /** The records of one running task. */
  lemma TaskRecord(node: map<Pos, nat>, sys: System, contexts: map<nat, nat>, tasks: map<nat, TaskMem>,
                   appLoads: map<nat, AppLoadInfo>, task: nat)
    requires RecordsMatch(node, sys, contexts, tasks, appLoads) && task in sys.apps
    ensures task in contexts && Root(App(task)) in node && contexts[task] == node[Root(App(task))]
    ensures task in tasks && tasks[task] == sys.apps[task].mem
  {}

  lemma MappedWritable(s: Memory, s': Memory, home: map<nat, nat>, task: nat, v: nat, hi: nat)
    requires MapsRange(s, s', App(task), v, hi, true) && InUser(v) && v < hi
    ensures MayWrite(s', home, App(task), v)
  {
    assert PageMapped(s, s', App(task), v, true, true);
  }

  // ----- running

  lemma OnePage(pages: Pages, v: nat)
    requires v !in pages
    ensures Absent(pages, v, v + 1) && WithZeroPages(pages, v, v + 1) == pages[v := ZeroPage()]
  {}

  lemma ImagesUntouched(sys: System, a: Space, pages: Pages)
    requires a.App? && ImagesBelowStack(sys)
    ensures ImagesBelowStack(WithPages(sys, a, pages))
  {}

  lemma RangesUntouched(sys: System, task: nat, mem: TaskMem)
    requires task in sys.apps && ImagesBelowStack(sys)
    ensures ImagesBelowStack(WithRanges(sys, task, mem)) && Has(WithRanges(sys, task, mem), App(task))
  {}

  lemma OwnedPresent(s: Memory, home: map<nat, nat>, a: Space, v: nat)
    requires MayWrite(s, home, a, v)
    ensures InUser(v) && Leaf(s, a, v).present && (a.App? ==> Leaf(s, a, v).writable)
  {}

  lemma WritablePage(s: Memory, home: map<nat, nat>, task: nat, v: nat)
    requires InUser(v) && Leaf(s, App(task), v).present && Leaf(s, App(task), v).writable
    ensures MayWrite(s, home, App(task), v)
  {}

  lemma FilledTwice(sys: System, task: nat, v: nat, p: Page, q: Page)
    requires task in sys.apps
    ensures var sys1 := WithPages(sys, App(task), sys.apps[task].pages[v := p]);
      && task in sys1.apps
      && WithPages(sys1, App(task), sys1.apps[task].pages[v := q]) == WithPages(sys, App(task), sys.apps[task].pages[v := q])
  {
    WithPagesTwice(sys, App(task), sys.apps[task].pages[v := p], sys.apps[task].pages[v := q]);
    assert sys.apps[task].pages[v := p][v := q] == sys.apps[task].pages[v := q];
  }

  lemma SameApp(sys: System, task: nat)
    requires task in sys.apps
    ensures sys.(apps := sys.apps[task := sys.apps[task]]) == sys
  {
    assert sys.apps[task := sys.apps[task]] == sys.apps;
  }

  lemma StoredWord(sys: System, task: nat, app: Application, v: nat, page: Page)
    ensures WithPages(sys.(apps := sys.apps[task := app]), App(task), app.pages[v := page])
      == sys.(apps := sys.apps[task := app.(pages := app.pages[v := page])])
  {
    assert sys.apps[task := app][task := app.(pages := app.pages[v := page])] == sys.apps[task := app.(pages := app.pages[v := page])];
  }

  /** The page is there, and nothing but a fault on it happened. */
  ghost predicate Fetched(sys: System, sys': System, task: nat, v: nat) {
    && task in sys.apps
    && var app := Touched(sys.apps[task], v);
       app.Some? && sys' == sys.(apps := sys.apps[task := app.value])
  }

  /** `t` is the translation of a page that is there. */
  ghost predicate Translated(s: Memory, sys: System, task: nat, v: nat, t: Translation) {
    && Leaf(s, App(task), v).present
    && t == Mapped(Leaf(s, App(task), v).addr, Leaf(s, App(task), v).writable, true)
    && task in sys.apps && v in sys.apps[task].pages
    && t.frame in s.mem && s.mem[t.frame] == sys.apps[task].pages[v]
  }

  // ----- exit

  lemma WorldOwns(s: Memory, home: map<nat, nat>, kernel: Kernel, sys: System, task: nat)
    requires World(s, home, kernel, sys) && task in sys.apps
    ensures LeavesOwned(s, App(task))
  {
    AppOwnsWritable(s, sys.images.Keys, home, App(task));
  }

  /** Freeing the root removes it from the bookkeeping. */
  lemma RootInUse(s: Memory, a: Space)
    requires Tree(s) && Root(a) in s.node
    ensures s.node[Root(a)] in Alloc(s) && s.node[Root(a)] in s.mem
    ensures RemoveRoot(s, a) == s.(node := s.node - {Root(a)}, role := s.role - {s.node[Root(a)]})
    ensures Alloc(RemoveRoot(s, a)) == Alloc(s) - {s.node[Root(a)]}
  {
    assert NodeOk(s, Root(a));
  }

  lemma RootsKept(s: Memory, s': Memory, a: Space)
    requires Cleans(s, s', a, 4, USER_LO, USER_HI)
    ensures forall p :: p in s.node && p.level >= 4 ==> p in s'.node && s'.node[p] == s.node[p]
  {}

  lemma RecordsAfterExit(node: map<Pos, nat>, s1: Memory, sys: System, contexts: map<nat, nat>, tasks: map<nat, TaskMem>,
                         appLoads: map<nat, AppLoadInfo>, task: nat)
    requires RecordsMatch(node, sys, contexts, tasks, appLoads) && Root(App(task)) in s1.node
    requires forall p :: p in node && p.level >= 4 ==> p in s1.node && s1.node[p] == node[p]
    ensures RecordsMatch(RemoveRoot(s1, App(task)).node, sys.(apps := sys.apps - {task}), contexts - {task}, tasks - {task}, appLoads)
  {}

  /** The root of a cleaned application can be freed. */
  lemma RootFreed(s: Memory, s1: Memory, home: map<nat, nat>, kernel: Kernel, sys: System, contexts: map<nat, nat>,
                  tasks: map<nat, TaskMem>, appLoads: map<nat, AppLoadInfo>, task: nat)
    requires World(s, home, kernel, sys) && Tree(s1) && Cleans(s, s1, App(task), 4, USER_LO, USER_HI)
    requires task in sys.apps
    requires RecordsMatch(s.node, sys, contexts, tasks, appLoads)
    ensures task in contexts && Root(App(task)) in s1.node && contexts[task] == s1.node[Root(App(task))]
    ensures contexts[task] in Alloc(s1) && contexts[task] in s1.mem
    ensures var s2, sys2 := RemoveRoot(s1, App(task)), sys.(apps := sys.apps - {task});
      && s2 == s1.(node := s1.node - {Root(App(task))}, role := s1.role - {contexts[task]})
      && Alloc(s2) == Alloc(s1) - {contexts[task]}
      && Tree(s2) && World(s2, home - {task}, kernel, sys2)
      && RecordsMatch(s2.node, sys2, contexts - {task}, tasks - {task}, appLoads)
  {
    hide World, FramesOf, RecordsMatch, Cleans, Tree, Alloc, RemoveRoot;
    WorldTree(s, home, kernel, sys);
    TaskRecord(s.node, sys, contexts, tasks, appLoads, task);
    CleansKeeps(s, s1, Root(App(task)), 4, USER_LO, USER_HI);
    WorldExits(s, s1, home, kernel, sys, task);
    RootInUse(s1, App(task));
    RootsKept(s, s1, App(task));
    RecordsAfterExit(s.node, s1, sys, contexts, tasks, appLoads, task);
    WorldTree(RemoveRoot(s1, App(task)), home - {task}, kernel, sys.(apps := sys.apps - {task}));
  }

  lemma ImagesAfterExit(sys: System, task: nat)
    requires ImagesBelowStack(sys)
    ensures ImagesBelowStack(sys.(apps := sys.apps - {task}))
  {}

  // ----- whole runs

  /** The frames that some address spaces own. */
  ghost function OwnedBy(s: Memory, spaces: set<Space>): set<nat> {
    set f | f in s.role && s.role[f].space in spaces
  }

  /** Every frame with a role belongs to a space that there is. */
  lemma OwnerLives(s: Memory, home: map<nat, nat>, kernel: Kernel, sys: System, f: nat)
    requires World(s, home, kernel, sys) && f in s.role
    ensures Has(sys, s.role[f].space)
  {
    assert s.role[f] in s.node;
    assert Live(sys.images.Keys, home, s.role[f].space);
  }

  /** Spaces that there are not own nothing. */
  lemma AbsentSpaces(s: Memory, home: map<nat, nat>, kernel: Kernel, sys: System, some: set<Space>, all: set<Space>)
    requires World(s, home, kernel, sys) && some <= all && forall b :: b in all && b !in some ==> !Has(sys, b)
    ensures OwnedBy(s, some) == OwnedBy(s, all)
  {
    hide World, Has;
    forall f | f in s.role && s.role[f].space in all
      ensures s.role[f].space in some
    {
      OwnerLives(s, home, kernel, sys, f);
    }
  }

  /** When every other space has the frames it had, the frames in use that do not belong to these are the same. */
  lemma OthersSame(s: Memory, s': Memory, spaces: set<Space>)
    requires Tree(s) && Tree(s') && s'.base == s.base
    requires forall b: Space :: b !in spaces ==> FramesOf(s', b) == FramesOf(s, b)
    ensures Alloc(s') - OwnedBy(s', spaces) == Alloc(s) - OwnedBy(s, spaces)
  {
    NotOwned(s, s', spaces);
    NotOwned(s', s, spaces);
  }

  lemma NotOwned(s: Memory, s': Memory, spaces: set<Space>)
    requires Tree(s) && Tree(s') && s'.base == s.base
    requires forall b: Space :: b !in spaces ==> FramesOf(s', b) == FramesOf(s, b)
    ensures Alloc(s) - OwnedBy(s, spaces) <= Alloc(s') - OwnedBy(s', spaces)
  {
    forall g | g in Alloc(s) - OwnedBy(s, spaces)
      ensures g in Alloc(s') - OwnedBy(s', spaces)
    {
      if g !in s.base {
        assert g in FramesOf(s, s.role[g].space);
        assert g in FramesOf(s', s.role[g].space);
      }
    }
  }

  /** Once the acting tasks have exited, what a run has left in use are the images it cached. */
  lemma ImagesLeft(s: Memory, s': Memory, home: map<nat, nat>, home': map<nat, nat>, kernel: Kernel,
                   sys: System, sys': System, actors: set<Space>, images: set<Space>)
    requires World(s, home, kernel, sys) && World(s', home', kernel, sys')
    requires Alloc(s') - OwnedBy(s', actors + images) == Alloc(s) - OwnedBy(s, actors + images)
    requires forall b :: b in images ==> !Has(sys, b)
    requires forall b :: b in actors ==> !Has(sys, b) && !Has(sys', b)
    ensures Alloc(s') - OwnedBy(s', images) == Alloc(s)
    ensures images == {} ==> Alloc(s') == Alloc(s)
  {
    hide World, Has, Alloc;
    AbsentSpaces(s, home, kernel, sys, {}, actors + images);
    AbsentSpaces(s', home', kernel, sys', images, actors + images);
    assert OwnedBy(s, {}) == {};
    assert images == {} ==> OwnedBy(s', images) == {};
  }
}
