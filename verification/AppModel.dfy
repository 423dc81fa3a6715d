/** The intended meaning of running applications: every application has private pages, copied eagerly from the
    image of its file. The kernel's shared page tables are proved to show exactly this. */
module AppModel {
  import opened Basics
  import opened PageTables
  import opened PageGrowth
  import opened PageCopy
  import opened PageClean
  import opened CopyOnWrite
  import opened SpaceLifecycle

  /** The stack of 256 pages and the page of arguments above it end the user half. */
  const STACK_LO: nat := USER_HI - 257
  const ARGS_PAGE: nat := USER_HI - 1

  /** A file mapped at the pages `[begin, end)`. */
  datatype FileMapping = FileMapping(begin: nat, end: nat, content: seq<Word>)

  /** The memory part of a task: its demand-paged range and its file mappings, in page numbers. */
  datatype TaskMem = TaskMem(dpBegin: nat, dpEnd: nat, fileMaps: seq<FileMapping>, fileMapEnd: nat)

  /** A loadable segment, at a word address; the words beyond those of the file are zero. */
  datatype Segment = Segment(addr: nat, words: seq<Word>, memsz: nat) {
    /** The segment lies in the user half, below the stack. */
    ghost predicate Valid() {
      USER_LO * ENTRIES <= addr && addr + memsz <= STACK_LO * ENTRIES && |words| <= memsz
    }

    function FirstPage(): nat {
      addr / ENTRIES
    }

    function NumPages(): nat {
      (addr % ENTRIES + memsz + (ENTRIES - 1)) / ENTRIES
    }

    function Content(): seq<Word>
      requires |words| <= memsz
    {
      words + seq(memsz - |words|, _ => NULL_WORD)
    }
  }

  datatype Image = Image(pages: Pages, end: nat)

  datatype Application = Application(file: nat, pages: Pages, mem: TaskMem)

  datatype System = System(images: map<nat, Image>, apps: map<nat, Application>)

  // ----- loading

  ghost function WriteWord(pages: Pages, addr: nat, w: Word): Pages {
    var v := addr / ENTRIES;
    if v in pages then pages[v := pages[v][addr % ENTRIES := w]] else pages
  }

  ghost function WriteWords(pages: Pages, addr: nat, ws: seq<Word>): Pages {
    if ws == [] then pages
    else WriteWord(WriteWords(pages, addr, ws[..|ws| - 1]), addr + |ws| - 1, ws[|ws| - 1])
  }

  ghost function LoadSegment(pages: Pages, g: Segment): Pages
    requires g.Valid()
  {
    WriteWords(WithZeroPages(pages, g.FirstPage(), g.FirstPage() + g.NumPages()), g.addr, g.Content())
  }

  ghost predicate ValidSegments(gs: seq<Segment>) {
    forall i :: 0 <= i < |gs| ==> gs[i].Valid()
  }

  ghost function LoadSegments(gs: seq<Segment>): Pages
    requires ValidSegments(gs)
  {
    if gs == [] then map[] else LoadSegment(LoadSegments(gs[..|gs| - 1]), gs[|gs| - 1])
  }

  function EndOf(gs: seq<Segment>): nat {
    if gs == [] then 0
    else
      var e, g := EndOf(gs[..|gs| - 1]), gs[|gs| - 1];
      if e < g.addr + g.memsz then g.addr + g.memsz else e
  }

  // ----- running

  /** An application just started from an image: private copies of its pages, a zeroed stack and arguments
      page, an empty demand range after the image, and no file mapping. */
  ghost function Started(file: nat, image: Image): Application {
    var dp := (image.end + (ENTRIES - 1)) / ENTRIES;
    Application(file, WithZeroPages(WithZeroPages(image.pages, STACK_LO, ARGS_PAGE), ARGS_PAGE, ARGS_PAGE + 1),
                TaskMem(dp, dp, [], STACK_LO))
  }

  function FindFileMapping(maps: seq<FileMapping>, v: nat): (r: Option<FileMapping>)
    ensures r.Some? ==> r.value in maps && r.value.begin <= v < r.value.end
    ensures r.None? ==> forall m :: m in maps ==> !(m.begin <= v < m.end)
  {
    if maps == [] then None
    else if maps[0].begin <= v < maps[0].end then Some(maps[0])
    else FindFileMapping(maps[1..], v)
  }

  /** The page of a mapped file that holds virtual page `v`, filled up with zeros. */
  function FilePage(m: FileMapping, v: nat): Page
    requires m.begin <= v
  {
    var off := (v - m.begin) * ENTRIES;
    seq(ENTRIES, i requires 0 <= i < ENTRIES => if off + i < |m.content| then m.content[off + i] else NULL_WORD)
  }

  /** What a first touch of page `v` brings in. */
  function FillOf(mem: TaskMem, v: nat): Option<Page> {
    if mem.dpBegin <= v < mem.dpEnd then Some(ZeroPage())
    else match FindFileMapping(mem.fileMaps, v)
      case Some(m) => Some(FilePage(m, v))
      case None => None
  }

  /** The application after an access to page `v`, or nothing if the access is a fault. */
  ghost function Touched(app: Application, v: nat): Option<Application> {
    if v in app.pages then Some(app)
    else match FillOf(app.mem, v)
      case Some(page) => Some(app.(pages := app.pages[v := page]))
      case None => None
  }

  datatype Op =
    | Start(task: nat, file: nat, segments: seq<Segment>)
    | Read(task: nat, v: nat, i: nat)
    | Write(task: nat, v: nat, i: nat, w: Word)
    | DemandPages(task: nat, n: nat)
    | MapFile(task: nat, content: seq<Word>)
    | Exit(task: nat)

  datatype Outcome = Done | Fault | Value(w: Word) | Mapping(page: nat)

  /** What the callers of the kernel guarantee: tasks exist, accesses are to the user half, a loaded file stays
      below the stack and a mapping fits below the previous one. */
  ghost predicate Legal(sys: System, op: Op) {
    match op
    case Start(t, f, gs) =>
      t !in sys.apps && (f !in sys.images ==> ValidSegments(gs))
    case Read(t, v, i) => t in sys.apps && InUser(v) && i < ENTRIES
    case Write(t, v, i, w) => t in sys.apps && InUser(v) && i < ENTRIES
    case DemandPages(t, n) => t in sys.apps
    case MapFile(t, content) => t in sys.apps && |content| <= sys.apps[t].mem.fileMapEnd * ENTRIES
    case Exit(t) => t in sys.apps
  }

  ghost function ImageFor(sys: System, file: nat, gs: seq<Segment>): Image
    requires file !in sys.images ==> ValidSegments(gs)
  {
    if file in sys.images then sys.images[file] else Image(LoadSegments(gs), EndOf(gs))
  }

  ghost function Step(sys: System, op: Op): (System, Outcome)
    requires Legal(sys, op)
  {
    match op
    case Start(t, f, gs) =>
      var image := ImageFor(sys, f, gs);
      (System(sys.images[f := image], sys.apps[t := Started(f, image)]), Done)
    case Read(t, v, i) =>
      (match Touched(sys.apps[t], v)
       case Some(app) => (sys.(apps := sys.apps[t := app]), Value(app.pages[v][i]))
       case None => (sys, Fault))
    case Write(t, v, i, w) =>
      (match Touched(sys.apps[t], v)
       case Some(app) => (sys.(apps := sys.apps[t := app.(pages := app.pages[v := app.pages[v][i := w]])]), Done)
       case None => (sys, Fault))
    case DemandPages(t, n) =>
      var mem := sys.apps[t].mem;
      (sys.(apps := sys.apps[t := sys.apps[t].(mem := mem.(dpEnd := mem.dpEnd + n))]), Mapping(mem.dpEnd))
    case MapFile(t, content) =>
      var mem := sys.apps[t].mem;
      var begin := (mem.fileMapEnd * ENTRIES - |content|) / ENTRIES;
      (sys.(apps := sys.apps[t := sys.apps[t].(mem :=
         mem.(fileMapEnd := begin, fileMaps := mem.fileMaps + [FileMapping(begin, mem.fileMapEnd, content)]))]),
       Mapping(begin))
    case Exit(t) => (sys.(apps := sys.apps - {t}), Done)
  }

  lemma {:induction false} WriteWordsKeys(pages: Pages, addr: nat, ws: seq<Word>)
    ensures WriteWords(pages, addr, ws).Keys == pages.Keys
  {
    if ws != [] {
      WriteWordsKeys(pages, addr, ws[..|ws| - 1]);
    }
  }

  lemma WriteWordsNext(pages: Pages, addr: nat, ws: seq<Word>, j: nat)
    requires j < |ws|
    ensures WriteWords(pages, addr, ws[..j + 1]) == WriteWord(WriteWords(pages, addr, ws[..j]), addr + j, ws[j])
  {
    assert ws[..j + 1][..j] == ws[..j];
  }

  lemma LoadSegmentsNext(gs: seq<Segment>, j: nat)
    requires ValidSegments(gs) && j < |gs|
    ensures LoadSegments(gs[..j + 1]) == LoadSegment(LoadSegments(gs[..j]), gs[j])
    ensures EndOf(gs[..j + 1]) == if EndOf(gs[..j]) < gs[j].addr + gs[j].memsz then gs[j].addr + gs[j].memsz else EndOf(gs[..j])
  {
    assert gs[..j + 1][..j] == gs[..j];
  }

  /** A segment's pages are in the user half, below the stack, and cover its words. */
  lemma SegmentRange(g: Segment)
    requires g.Valid()
    ensures InUser(g.FirstPage()) && g.FirstPage() + g.NumPages() <= STACK_LO
  {}

  lemma WordPage(addr: nat, n: nat, j: nat)
    requires j < n
    ensures addr / ENTRIES <= (addr + j) / ENTRIES < addr / ENTRIES + (addr % ENTRIES + n + (ENTRIES - 1)) / ENTRIES
  {}

  lemma {:induction false} LoadedBelowStack(gs: seq<Segment>)
    requires ValidSegments(gs)
    ensures forall v :: v in LoadSegments(gs) ==> v < STACK_LO
  {
    if gs != [] {
      var n := |gs| - 1;
      LoadedBelowStack(gs[..n]);
      SegmentRange(gs[n]);
      WithZeroPagesAt(LoadSegments(gs[..n]), gs[n].FirstPage(), gs[n].FirstPage() + gs[n].NumPages());
      WriteWordsKeys(WithZeroPages(LoadSegments(gs[..n]), gs[n].FirstPage(), gs[n].FirstPage() + gs[n].NumPages()),
                     gs[n].addr, gs[n].Content());
    }
  }

  /** Cached images do not reach the stack of the tasks that run them. */
  ghost predicate ImagesBelowStack(sys: System) {
    forall f :: f in sys.images ==> forall v :: v in sys.images[f].pages ==> v < STACK_LO
  }
}
