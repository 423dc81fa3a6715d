/** What the tasks of a run read: the words they stored, and otherwise those that loading and mapping brought in. */
module AppReads {
  import opened Basics
  import opened PageTables
  import opened PageGrowth
  import opened CopyOnWrite
  import opened AppModel
  import opened AppRuns
  import opened FileMaps

  ghost function ReadOf(sys: System, t: nat, v: nat, i: nat): Outcome
    requires Legal(sys, Read(t, v, i))
  {
    Step(sys, Read(t, v, i)).1
  }

  // ----- one store

  /** A store that is done is read back by its task, and no other word of any task changes; it faults exactly where a
      load does. */
  lemma StoreThenLoad(sys: System, t: nat, v: nat, i: nat, w: Word)
    requires Legal(sys, Write(t, v, i, w))
    ensures var (sys', o) := Step(sys, Write(t, v, i, w));
      && (o == Done <==> ReadOf(sys, t, v, i) != Fault) && (o == Done || (o == Fault && sys' == sys))
      && (o == Done ==> Legal(sys', Read(t, v, i)) && ReadOf(sys', t, v, i) == Value(w))
      && forall t': nat, v': nat, i': nat :: Legal(sys, Read(t', v', i')) ==>
           && Legal(sys', Read(t', v', i'))
           && ((t', v', i') != (t, v, i) ==> ReadOf(sys', t', v', i') == ReadOf(sys, t', v', i'))
  {}

  /** Loads change nothing that is read. */
  lemma LoadKeeps(sys: System, t: nat, v: nat, i: nat)
    requires Legal(sys, Read(t, v, i))
    ensures var sys' := Step(sys, Read(t, v, i)).0;
      forall t': nat, v': nat, i': nat :: Legal(sys, Read(t', v', i')) ==>
        Legal(sys', Read(t', v', i')) && ReadOf(sys', t', v', i') == ReadOf(sys, t', v', i')
  {}

  /** After an exit the task is gone, and all that the others read stays. */
  lemma ExitEnds(sys: System, t: nat)
    requires Legal(sys, Exit(t))
    ensures var (sys', o) := Step(sys, Exit(t));
      && o == Done && sys'.apps.Keys == sys.apps.Keys - {t} && sys'.images == sys.images
      && forall t': nat, v': nat, i': nat :: t' != t && Legal(sys, Read(t', v', i')) ==>
           Legal(sys', Read(t', v', i')) && ReadOf(sys', t', v', i') == ReadOf(sys, t', v', i')
  {}

  // ----- whole runs

  /** The word that a task stored at a place since it started, after one more operation. */
  function Stores(op: Op, o: Outcome, t: nat, v: nat, i: nat, before: Option<Word>): Option<Word> {
    match op
    case Write(t', v', i', w) => if t' == t && v' == v && i' == i && o == Done then Some(w) else before
    case Start(t', _, _) => if t' == t then None else before
    case Exit(t') => if t' == t then None else before
    case _ => before
  }

  /** The last one in a run. */
  function LastStored(ops: seq<Op>, outs: seq<Outcome>, t: nat, v: nat, i: nat, before: Option<Word>): Option<Word>
    requires |outs| == |ops|
  {
    if ops == [] then before else LastStored(ops[1..], outs[1..], t, v, i, Stores(ops[0], outs[0], t, v, i, before))
  }

  /** A word of the `j`-th file mapping, zero behind the end of the file. */
  predicate InMapping(mem: TaskMem, j: nat, v: nat, i: nat, w: Word) {
    && j < |mem.fileMaps| && mem.fileMaps[j].begin <= v < mem.fileMaps[j].end
    && var k := (v - mem.fileMaps[j].begin) * ENTRIES + i;
       w == if k < |mem.fileMaps[j].content| then mem.fileMaps[j].content[k] else NULL_WORD
  }

  /** What a load may give where the task has stored nothing: the word of its image, zero in the stack and in the
      demand-paged range, or the word of a mapped file; a fault elsewhere only. */
  ghost predicate Fresh(sys: System, t: nat, v: nat, i: nat, o: Outcome)
    requires t in sys.apps && sys.apps[t].file in sys.images && i < ENTRIES
  {
    var mem, pages := sys.apps[t].mem, sys.images[sys.apps[t].file].pages;
    if v in pages then o == Value(pages[v][i])
    else if STACK_LO <= v <= ARGS_PAGE then o == Value(NULL_WORD)
    else
      || (o == Value(NULL_WORD) && mem.dpBegin <= v < mem.dpEnd)
      || (o.Value? && exists j :: InMapping(mem, j, v, i, o.w))
      || (o == Fault && !(mem.dpBegin <= v < mem.dpEnd) && forall m :: m in mem.fileMaps ==> !(m.begin <= v < m.end))
  }

  /** A task's word is the one it stored, and otherwise fresh. */
  ghost predicate Remembers(sys: System, t: nat, v: nat, i: nat, stored: Option<Word>)
    requires i < ENTRIES
  {
    if t !in sys.apps then stored.None?
    else
      var app := sys.apps[t];
      && app.file in sys.images && (v in sys.images[app.file].pages || STACK_LO <= v <= ARGS_PAGE ==> v in app.pages)
      && if v !in app.pages then stored.None?
         else match stored
           case Some(w) => app.pages[v][i] == w
           case None => Fresh(sys, t, v, i, Value(app.pages[v][i]))
  }

  /** A fill brings in fresh words. */
  lemma FillIsFresh(sys: System, t: nat, v: nat, i: nat)
    requires t in sys.apps && sys.apps[t].file in sys.images && i < ENTRIES
    requires v !in sys.images[sys.apps[t].file].pages && !(STACK_LO <= v <= ARGS_PAGE)
    ensures Fresh(sys, t, v, i, match FillOf(sys.apps[t].mem, v) case Some(page) => Value(page[i]) case None => Fault)
  {
    var mem := sys.apps[t].mem;
    if !(mem.dpBegin <= v < mem.dpEnd) && FindFileMapping(mem.fileMaps, v).Some? {
      var m := FindFileMapping(mem.fileMaps, v).value;
      var j :| 0 <= j < |mem.fileMaps| && mem.fileMaps[j] == m;
      assert InMapping(mem, j, v, i, FilePage(m, v)[i]);
    }
  }

  /** What is fresh stays so while ranges grow and mappings are added. */
  lemma FreshStays(sys: System, sys': System, t: nat, v: nat, i: nat, w: Word)
    requires t in sys.apps && sys.apps[t].file in sys.images && i < ENTRIES && Fresh(sys, t, v, i, Value(w))
    requires t in sys'.apps && sys'.apps[t].file == sys.apps[t].file && sys.apps[t].file in sys'.images
    requires sys'.images[sys.apps[t].file] == sys.images[sys.apps[t].file]
    requires var mem, mem' := sys.apps[t].mem, sys'.apps[t].mem;
      mem'.dpBegin == mem.dpBegin && mem.dpEnd <= mem'.dpEnd && mem.fileMaps <= mem'.fileMaps
    ensures Fresh(sys', t, v, i, Value(w))
  {
    if j: nat :| InMapping(sys.apps[t].mem, j, v, i, w) {
      assert InMapping(sys'.apps[t].mem, j, v, i, w);
    }
  }

  lemma StepRemembers(sys: System, op: Op, t: nat, v: nat, i: nat, stored: Option<Word>)
    requires Legal(sys, op) && i < ENTRIES && Remembers(sys, t, v, i, stored)
    ensures Remembers(Step(sys, op).0, t, v, i, Stores(op, Step(sys, op).1, t, v, i, stored))
  {
    hide LoadSegments, EndOf, FillOf, Fresh, Started;
    var (sys', o) := Step(sys, op);
    if op.task == t {
      match op
      case Start(_, f, gs) => StartRemembers(sys, op, v, i);
      case Read(_, v', _) => TouchRemembers(sys, sys', t, v, v', i, stored);
      case Write(_, v', i', w) => WriteRemembers(sys, op, v, i, stored);
      case Exit(_) => {}
      case _ =>
        if v in sys.apps[t].pages && stored.None? {
          FreshStays(sys, sys', t, v, i, sys.apps[t].pages[v][i]);
        }
    } else if t in sys.apps && v in sys.apps[t].pages && stored.None? {
      FreshStays(sys, sys', t, v, i, sys.apps[t].pages[v][i]);
    }
  }

  lemma StartRemembers(sys: System, op: Op, v: nat, i: nat)
    requires op.Start? && Legal(sys, op) && i < ENTRIES
    ensures Remembers(Step(sys, op).0, op.task, v, i, None)
  {
    var image := ImageFor(sys, op.file, op.segments);
    hide ImageFor;
    var stack := WithZeroPages(image.pages, STACK_LO, ARGS_PAGE);
    WithZeroPagesAt(image.pages, STACK_LO, ARGS_PAGE);
    WithZeroPagesAt(stack, ARGS_PAGE, ARGS_PAGE + 1);
  }

  /** A first access brings in a fresh page. */
  lemma TouchRemembers(sys: System, sys': System, t: nat, v: nat, v': nat, i: nat, stored: Option<Word>)
    requires t in sys.apps && i < ENTRIES && Remembers(sys, t, v, i, stored)
    requires match Touched(sys.apps[t], v') case Some(app) => sys' == sys.(apps := sys.apps[t := app]) case None => sys' == sys
    ensures Remembers(sys', t, v, i, stored)
  {
    hide FillOf, Fresh;
    if v in sys.apps[t].pages {
      if stored.None? {
        FreshStays(sys, sys', t, v, i, sys.apps[t].pages[v][i]);
      }
    } else if v == v' && Touched(sys.apps[t], v').Some? {
      FillIsFresh(sys, t, v, i);
      FreshStays(sys, sys', t, v, i, sys'.apps[t].pages[v][i]);
    }
  }

  lemma WriteRemembers(sys: System, op: Op, v: nat, i: nat, stored: Option<Word>)
    requires op.Write? && Legal(sys, op) && i < ENTRIES && Remembers(sys, op.task, v, i, stored)
    ensures var (sys', o) := Step(sys, op);
      Remembers(sys', op.task, v, i, if op.v == v && op.i == i && o == Done then Some(op.w) else stored)
  {
    hide FillOf, Fresh;
    var t, sys' := op.task, Step(sys, op).0;
    match Touched(sys.apps[t], op.v)
    case None => {}
    case Some(app) =>
      var mid := sys.(apps := sys.apps[t := app]);
      TouchRemembers(sys, mid, t, v, op.v, i, stored);
      if !(op.v == v && op.i == i) && v in app.pages && stored.None? {
        FreshStays(mid, sys', t, v, i, app.pages[v][i]);
      }
  }

  lemma {:induction false} RunRemembers(sys: System, ops: seq<Op>, t: nat, v: nat, i: nat, stored: Option<Word>)
    requires AllLegal(sys, ops) && i < ENTRIES && Remembers(sys, t, v, i, stored)
    ensures Remembers(Final(sys, ops), t, v, i, LastStored(ops, Outcomes(sys, ops), t, v, i, stored))
    decreases |ops|
  {
    hide Remembers, Stores, Legal, Step;
    if ops != [] {
      var (next, o) := Step(sys, ops[0]);
      StepRemembers(sys, ops[0], t, v, i, stored);
      RunRemembers(next, ops[1..], t, v, i, Stores(ops[0], o, t, v, i, stored));
      var outs := Outcomes(sys, ops);
      assert outs[0] == o && outs[1..] == Outcomes(next, ops[1..]);
    }
  }

  /** In every run, a load by a task that was started in it gives the word that the task stored there last, and
      otherwise a fresh one. */
  lemma LoadsLastStored(sys: System, ops: seq<Op>, t: nat, v: nat, i: nat)
    requires AllLegal(sys, ops) && t !in sys.apps && Legal(Final(sys, ops), Read(t, v, i))
    ensures Final(sys, ops).apps[t].file in Final(sys, ops).images
    ensures match LastStored(ops, Outcomes(sys, ops), t, v, i, None)
      case Some(w) => ReadOf(Final(sys, ops), t, v, i) == Value(w)
      case None => Fresh(Final(sys, ops), t, v, i, ReadOf(Final(sys, ops), t, v, i))
  {
    hide Fresh, LastStored, FillOf;
    RunRemembers(sys, ops, t, v, i, None);
    var last := Final(sys, ops);
    if v !in last.apps[t].pages {
      FillIsFresh(last, t, v, i);
    }
  }

  /** The system call that extends the demand-paged range returns its old end, and from there on the pages can be
      used, zeroed, up to as many as were asked for. */
  lemma DemandedPages(sys: System, t: nat, n: nat, v: nat, i: nat)
    requires Legal(sys, DemandPages(t, n)) && InUser(v) && i < ENTRIES
    ensures var (sys', o) := Step(sys, DemandPages(t, n));
      && o.Mapping?
      && (o.page <= v < o.page + n && o.page >= sys.apps[t].mem.dpBegin ==>
            ReadOf(sys', t, v, i) == if v in sys.apps[t].pages then ReadOf(sys, t, v, i) else Value(NULL_WORD))
      && sys'.apps[t].mem.dpEnd == o.page + n && o.page == sys.apps[t].mem.dpEnd
  {}

  /** The system call that maps a file returns the first page of the mapping, in which the file's words are read in order,
      and zeros behind the last one. */
  lemma MappedRead(sys: System, t: nat, content: seq<Word>, k: nat)
    requires AllStacked(sys) && Legal(sys, MapFile(t, content))
    ensures var (sys', o) := Step(sys, MapFile(t, content));
      && o.Mapping? && o.page <= sys.apps[t].mem.fileMapEnd && sys'.apps[t].mem.fileMapEnd == o.page
      && var v, mem := o.page + k / ENTRIES, sys.apps[t].mem;
         (v < mem.fileMapEnd && InUser(v) && v !in sys.apps[t].pages && !(mem.dpBegin <= v < mem.dpEnd) ==>
            ReadOf(sys', t, v, k % ENTRIES) == Value(if k < |content| then content[k] else NULL_WORD))
  {
    hide Stacked;
    var (sys', o) := Step(sys, MapFile(t, content));
    var mem := sys.apps[t].mem;
    StepStacks(sys, MapFile(t, content));
    RoundedDown(mem.fileMapEnd, |content|);
    var j := |mem.fileMaps|;
    assert sys'.apps[t].mem.fileMaps[j] == FileMapping(o.page, mem.fileMapEnd, content);
    var v := o.page + k / ENTRIES;
    if v < mem.fileMapEnd && InUser(v) && v !in sys.apps[t].pages && !(mem.dpBegin <= v < mem.dpEnd) {
      MappedWord(sys', t, j, k);
    }
  }

  // ----- loading

  /** The page shares a word with the segment, or the segment is an empty one within it. */
  predicate InPage(g: Segment, v: nat) {
    g.addr < (v + 1) * ENTRIES && v * ENTRIES < g.addr + g.memsz
  }

  /** The last segment that has a word at this address. */
  ghost predicate LastWith(gs: seq<Segment>, j: nat, a: nat) {
    && j < |gs| && gs[j].addr <= a < gs[j].addr + gs[j].memsz
    && forall k :: j < k < |gs| ==> !(gs[k].addr <= a < gs[k].addr + gs[k].memsz)
  }

  lemma {:induction false} WriteWordsAt(pages: Pages, addr: nat, ws: seq<Word>, v: nat, i: nat)
    requires v in pages && i < ENTRIES
    ensures v in WriteWords(pages, addr, ws)
    ensures var a := v * ENTRIES + i;
      WriteWords(pages, addr, ws)[v][i] == if addr <= a < addr + |ws| then ws[a - addr] else pages[v][i]
  {
    WriteWordsKeys(pages, addr, ws);
    if ws != [] {
      var n := |ws| - 1;
      WriteWordsAt(pages, addr, ws[..n], v, i);
      SamePlace(v, i, addr + n);
    }
  }

  lemma SamePlace(v: nat, i: nat, a: nat)
    requires i < ENTRIES
    ensures v * ENTRIES + i == a <==> v == a / ENTRIES && i == a % ENTRIES
  {}

  lemma PagesOfSegment(g: Segment, v: nat)
    requires g.Valid()
    ensures g.FirstPage() <= v < g.FirstPage() + g.NumPages() <==> InPage(g, v)
  {}

  lemma LoadedPages(pages: Pages, g: Segment, v: nat)
    requires g.Valid()
    ensures v in LoadSegment(pages, g) <==> v in pages || InPage(g, v)
    ensures v in LoadSegment(pages, g) ==> forall i: nat :: i < ENTRIES ==>
      LoadSegment(pages, g)[v][i] ==
        var a := v * ENTRIES + i;
        if g.addr <= a < g.addr + g.memsz then (if a - g.addr < |g.words| then g.words[a - g.addr] else NULL_WORD)
        else if v in pages then pages[v][i] else NULL_WORD
  {
    hide Segment.FirstPage, Segment.NumPages;
    PagesOfSegment(g, v);
    var zeroed := WithZeroPages(pages, g.FirstPage(), g.FirstPage() + g.NumPages());
    WithZeroPagesAt(pages, g.FirstPage(), g.FirstPage() + g.NumPages());
    WriteWordsKeys(zeroed, g.addr, g.Content());
    if v in zeroed {
      forall i: nat | i < ENTRIES
        ensures LoadSegment(pages, g)[v][i] ==
          var a := v * ENTRIES + i;
          if g.addr <= a < g.addr + g.memsz then g.Content()[a - g.addr] else zeroed[v][i]
      {
        WriteWordsAt(zeroed, g.addr, g.Content(), v, i);
      }
    }
  }

  /** Loading gives exactly the pages that the segments reach into; a word is that of the last segment that has one at
      its address, zero behind the words of the file, and zero where no segment has one. */
  lemma {:induction false} LoadedWord(gs: seq<Segment>, v: nat, i: nat)
    requires ValidSegments(gs) && i < ENTRIES
    ensures v in LoadSegments(gs) <==> exists j :: 0 <= j < |gs| && InPage(gs[j], v)
    ensures v in LoadSegments(gs) ==>
      var a := v * ENTRIES + i;
      && (forall j: nat :: LastWith(gs, j, a) ==>
            LoadSegments(gs)[v][i] == if a - gs[j].addr < |gs[j].words| then gs[j].words[a - gs[j].addr] else NULL_WORD)
      && ((forall j :: 0 <= j < |gs| ==> !(gs[j].addr <= a < gs[j].addr + gs[j].memsz)) ==> LoadSegments(gs)[v][i] == NULL_WORD)
  {
    hide LoadSegment, InPage;
    if gs != [] {
      var n, a := |gs| - 1, v * ENTRIES + i;
      LoadedWord(gs[..n], v, i);
      LoadedPages(LoadSegments(gs[..n]), gs[n], v);
      forall j: nat | LastWith(gs, j, a) && v in LoadSegments(gs)
        ensures LoadSegments(gs)[v][i] == if a - gs[j].addr < |gs[j].words| then gs[j].words[a - gs[j].addr] else NULL_WORD
      {
        if j < n {
          assert LastWith(gs[..n], j, a);
          WordInPage(gs[j], a);
        }
      }
      if v in LoadSegments(gs[..n]) {
        var j :| 0 <= j < n && InPage(gs[..n][j], v);
        assert InPage(gs[j], v);
      }
      if j :| 0 <= j < |gs| && InPage(gs[j], v) && j < n {
        assert InPage(gs[..n][j], v);
      }
    }
  }

  lemma WordInPage(g: Segment, a: nat)
    requires g.addr <= a < g.addr + g.memsz
    ensures InPage(g, a / ENTRIES)
  {}

  lemma {:induction false} EndIsLargest(gs: seq<Segment>)
    ensures forall j :: 0 <= j < |gs| ==> gs[j].addr + gs[j].memsz <= EndOf(gs)
    ensures EndOf(gs) == 0 || exists j :: 0 <= j < |gs| && EndOf(gs) == gs[j].addr + gs[j].memsz
  {
    if gs != [] {
      var n := |gs| - 1;
      EndIsLargest(gs[..n]);
      if EndOf(gs) == EndOf(gs[..n]) && EndOf(gs) != 0 {
        var j :| 0 <= j < n && EndOf(gs) == gs[..n][j].addr + gs[..n][j].memsz;
        assert EndOf(gs) == gs[j].addr + gs[j].memsz;
      }
    }
  }

  /** A task just started reads the words of the cached image, or else those of the segments it was loaded from, and zeros
      in its stack and its page of arguments. */
  lemma StartedWord(sys: System, t: nat, f: nat, gs: seq<Segment>, v: nat, i: nat)
    requires Legal(sys, Start(t, f, gs)) && InUser(v) && i < ENTRIES
    ensures var (sys', o) := Step(sys, Start(t, f, gs));
      && o == Done && f in sys'.images && (f in sys.images ==> sys'.images[f] == sys.images[f])
      && (f !in sys.images ==> sys'.images[f].pages == LoadSegments(gs))
      && ReadOf(sys', t, v, i) == (
           if v in sys'.images[f].pages then Value(sys'.images[f].pages[v][i])
           else if STACK_LO <= v <= ARGS_PAGE then Value(NULL_WORD)
           else Fault)
  {
    hide LoadSegments, EndOf;
    var image := ImageFor(sys, f, gs);
    hide ImageFor;
    var stack := WithZeroPages(image.pages, STACK_LO, ARGS_PAGE);
    WithZeroPagesAt(image.pages, STACK_LO, ARGS_PAGE);
    WithZeroPagesAt(stack, ARGS_PAGE, ARGS_PAGE + 1);
  }

  /** The memory of a task just started from a file that was not cached: its demand-paged range is empty and begins at
      the first page behind all segments, no file is mapped, and mappings will end below the stack. */
  lemma StartLayout(sys: System, t: nat, f: nat, gs: seq<Segment>)
    requires Legal(sys, Start(t, f, gs)) && f !in sys.images
    ensures var app := Step(sys, Start(t, f, gs)).0.apps[t];
      && app.mem.dpEnd == app.mem.dpBegin && app.mem.fileMaps == [] && app.mem.fileMapEnd == STACK_LO
      && (forall j :: 0 <= j < |gs| ==> gs[j].addr + gs[j].memsz <= app.mem.dpBegin * ENTRIES)
      && (app.mem.dpBegin > 0 ==> exists j :: 0 <= j < |gs| && (app.mem.dpBegin - 1) * ENTRIES < gs[j].addr + gs[j].memsz)
      && (forall v :: v in LoadSegments(gs) ==> v < app.mem.dpBegin)
  {
    EndIsLargest(gs);
    hide LoadSegments, EndOf, WithZeroPages;
    forall v | v in LoadSegments(gs)
      ensures v < (EndOf(gs) + (ENTRIES - 1)) / ENTRIES
    {
      LoadedWord(gs, v, 0);
    }
  }
}
