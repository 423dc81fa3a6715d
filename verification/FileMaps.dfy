/** File mappings over whole runs (kernel/syscall.cpp, `MapFile`; kernel/paging.cpp, `FindFileMapping` and
    `PreparePageCache`): where they lie, and what a fault in one brings in. */
module FileMaps {
  import opened Basics
  import opened PageTables
  import opened AppModel
  import opened AppRuns

  /** Each mapping ends where the one before it begins, the first one at `top` and the next one at `bottom`; a
      mapping has as many pages as its file needs. */
  ghost predicate Stacked(maps: seq<FileMapping>, top: nat, bottom: nat) {
    if maps == [] then bottom == top
    else
      var m := maps[|maps| - 1];
      && m.begin == bottom <= m.end && m.end - m.begin == (|m.content| + (ENTRIES - 1)) / ENTRIES
      && Stacked(maps[..|maps| - 1], top, m.end)
  }

  /** The mappings of every task are stacked below its stack. */
  ghost predicate AllStacked(sys: System) {
    forall t :: t in sys.apps ==> Stacked(sys.apps[t].mem.fileMaps, STACK_LO, sys.apps[t].mem.fileMapEnd)
  }

  /** How many pages a mapping gets: its end less its size, rounded down to a page. */
  lemma RoundedDown(end: nat, n: nat)
    requires n <= end * ENTRIES
    ensures (end * ENTRIES - n) / ENTRIES <= end && end - (end * ENTRIES - n) / ENTRIES == (n + (ENTRIES - 1)) / ENTRIES
  {}

  lemma StackedMore(maps: seq<FileMapping>, top: nat, bottom: nat, m: FileMapping)
    requires Stacked(maps, top, bottom) && m.end == bottom >= m.begin
    requires m.end - m.begin == (|m.content| + (ENTRIES - 1)) / ENTRIES
    ensures Stacked(maps + [m], top, m.begin)
  {
    assert (maps + [m])[..|maps|] == maps;
  }

  lemma StepStacks(sys: System, op: Op)
    requires Legal(sys, op) && AllStacked(sys)
    ensures AllStacked(Step(sys, op).0)
  {
    if op.MapFile? {
      var mem := sys.apps[op.task].mem;
      var begin := (mem.fileMapEnd * ENTRIES - |op.content|) / ENTRIES;
      RoundedDown(mem.fileMapEnd, |op.content|);
      StackedMore(mem.fileMaps, STACK_LO, mem.fileMapEnd, FileMapping(begin, mem.fileMapEnd, op.content));
    }
  }

  /** In every state of every run the mappings of every task are stacked. */
  lemma {:induction false} RunsStack(sys: System, ops: seq<Op>)
    requires AllLegal(sys, ops) && AllStacked(sys)
    ensures AllStacked(Final(sys, ops))
    decreases |ops|
  {
    if ops != [] {
      StepStacks(sys, ops[0]);
      RunsStack(Step(sys, ops[0]).0, ops[1..]);
    }
  }

  /** Stacked mappings lie between the two ends and do not overlap. */
  lemma {:induction false} StackedApart(maps: seq<FileMapping>, top: nat, bottom: nat, i: nat, j: nat)
    requires Stacked(maps, top, bottom) && i < |maps| && j < |maps|
    ensures bottom <= maps[i].begin <= maps[i].end <= top
    ensures maps[i].end - maps[i].begin == (|maps[i].content| + (ENTRIES - 1)) / ENTRIES
    ensures i < j ==> maps[j].end <= maps[i].begin
    decreases |maps|
  {
    var n := |maps| - 1;
    if i < n {
      StackedApart(maps[..n], top, maps[n].end, i, if j < n then j else i);
    } else if n > 0 {
      StackedApart(maps[..n], top, maps[n].end, 0, 0);
    }
  }

  /** The search finds the only mapping that covers a page. */
  lemma {:induction false} FindsOnly(maps: seq<FileMapping>, v: nat, i: nat)
    requires i < |maps| && maps[i].begin <= v < maps[i].end
    requires forall j :: 0 <= j < |maps| && j != i ==> !(maps[j].begin <= v < maps[j].end)
    ensures FindFileMapping(maps, v) == Some(maps[i])
  {
    if i > 0 {
      assert !(maps[0].begin <= v < maps[0].end);
      FindsOnly(maps[1..], v, i - 1);
    }
  }

  /** Word `k` of a mapped file is read at its place in the mapping, and zeros follow the last word up to the end of
      the mapping: what a task reads there in any state of a run, unless it has the page already or the page belongs
      to its demand-paged range. */
  lemma MappedWord(sys: System, task: nat, j: nat, k: nat)
    requires AllStacked(sys) && task in sys.apps && j < |sys.apps[task].mem.fileMaps|
    requires var mem := sys.apps[task].mem;
      var m := mem.fileMaps[j];
      var v := m.begin + k / ENTRIES;
      k < (m.end - m.begin) * ENTRIES && InUser(v) && v !in sys.apps[task].pages && !(mem.dpBegin <= v < mem.dpEnd)
    ensures var m := sys.apps[task].mem.fileMaps[j];
      Step(sys, Read(task, m.begin + k / ENTRIES, k % ENTRIES)).1 == Value(if k < |m.content| then m.content[k] else NULL_WORD)
  {
    var mem := sys.apps[task].mem;
    var m, v := mem.fileMaps[j], mem.fileMaps[j].begin + k / ENTRIES;
    forall i | 0 <= i < |mem.fileMaps| && i != j
      ensures !(mem.fileMaps[i].begin <= v < mem.fileMaps[i].end)
    {
      StackedApart(mem.fileMaps, STACK_LO, mem.fileMapEnd, i, j);
      StackedApart(mem.fileMaps, STACK_LO, mem.fileMapEnd, j, i);
    }
    FindsOnly(mem.fileMaps, v, j);
    assert (v - m.begin) * ENTRIES + k % ENTRIES == k;
    assert FilePage(m, v)[k % ENTRIES] == if k < |m.content| then m.content[k] else NULL_WORD;
  }
}
