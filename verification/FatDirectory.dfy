/** Directories: the entries of a chain of clusters, and what a path leads to (kernel/fat.cpp), as values. */
module FatDirectory {
  import opened Basics
  import opened FatChains
  import opened FatVolume
  import opened FatContents
  import opened FatNames

  const DIRECTORY: Byte := 0x10

  function FirstByte(e: DirEntry): Byte {
    if e.name == [] then 0 else e.name[0]
  }

  /** A slot that a new entry can take: never used, or deleted. */
  predicate Usable(e: DirEntry) {
    FirstByte(e) == 0 || FirstByte(e) == 0xe5
  }

  const EMPTY_ENTRY: DirEntry := DirEntry([0, 0, 0, 0, 0, 0, 0, 0, 0, 0, 0], 0, 0, 0, 0)

  /** The first entry with the name, from number `i` on; a slot that was never used ends the search. */
  function LookupFrom(es: seq<DirEntry>, name: seq<Byte>, i: nat): (r: Option<nat>)
    ensures r.Some? ==> i <= r.value < |es| && es[r.value].name == name && FirstByte(es[r.value]) != 0
    decreases |es| - i
  {
    if i >= |es| || FirstByte(es[i]) == 0 then None
    else if es[i].name == name then Some(i)
    else LookupFrom(es, name, i + 1)
  }

  function Lookup(es: seq<DirEntry>, name: seq<Byte>): (r: Option<nat>)
    ensures r.Some? ==> r.value < |es| && es[r.value].name == name && FirstByte(es[r.value]) != 0
  {
    LookupFrom(es, name, 0)
  }

  /** Nothing follows the first slot that was never used. */
  ghost predicate TailUnused(es: seq<DirEntry>) {
    forall i, j :: 0 <= i < j < |es| && FirstByte(es[i]) == 0 ==> FirstByte(es[j]) == 0
  }

  /** The first usable slot, or the number of slots. */
  function FirstUsable(es: seq<DirEntry>): (i: nat)
    ensures i <= |es| && (i < |es| ==> Usable(es[i]))
    ensures forall j :: 0 <= j < i ==> !Usable(es[j])
  {
    if es == [] || Usable(es[0]) then 0 else 1 + FirstUsable(es[1..])
  }

  /** Slots of deleted entries are used again: the slot taken is the first one whose name begins with 0, for never used,
      or with 0xe5, for deleted. */
  lemma DeletedIsReused(es: seq<DirEntry>, i: nat)
    requires i < |es| && (FirstByte(es[i]) == 0 || FirstByte(es[i]) == 0xe5)
    ensures FirstUsable(es) <= i && FirstByte(es[FirstUsable(es)]) in {0, 0xe5}
    ensures forall j :: 0 <= j < FirstUsable(es) ==> FirstByte(es[j]) !in {0, 0xe5}
  {}

  function Unused(n: nat): (es: seq<DirEntry>)
    ensures |es| == n && forall i :: 0 <= i < n ==> es[i] == EMPTY_ENTRY
  {
    seq(n, _ => EMPTY_ENTRY)
  }

  /** The directory with an entry put into slot `i`, or into the first slot of `extra` unused ones added to it. */
  function Inserted(es: seq<DirEntry>, i: nat, e: DirEntry, extra: nat): seq<DirEntry>
    requires i < |es| || (i == |es| && extra > 0)
  {
    if i < |es| then es[i := e] else es + [e] + Unused(extra - 1)
  }

  /** Growing the directory included, nothing comes to follow an unused slot. */
  lemma InsertKeepsTail(es: seq<DirEntry>, e: DirEntry, extra: nat)
    requires TailUnused(es) && extra > 0 && FirstByte(e) != 0
    ensures TailUnused(Inserted(es, FirstUsable(es), e, extra))
  {
    var i := FirstUsable(es);
    var es' := Inserted(es, i, e, extra);
    forall j, k | 0 <= j < k < |es'| && FirstByte(es'[j]) == 0
      ensures FirstByte(es'[k]) == 0
    {
      if i < |es| {
        assert j != i && FirstByte(es[j]) == 0;
        assert j > i;
      } else {
        assert j > i;
      }
    }
  }

  /** A new name is found where its entry was put. */
  lemma {:induction false} InsertFound(es: seq<DirEntry>, e: DirEntry, extra: nat, j: nat)
    requires TailUnused(es) && extra > 0 && FirstByte(e) != 0 && LookupFrom(es, e.name, j).None?
    requires j <= FirstUsable(es)
    ensures LookupFrom(Inserted(es, FirstUsable(es), e, extra), e.name, j) == Some(FirstUsable(es))
    decreases |es| - j
  {
    if j < FirstUsable(es) {
      InsertFound(es, e, extra, j + 1);
    }
  }

  /** Every other name leads where it led before, unless it is the name of a deleted entry. */
  lemma {:induction false} InsertOthers(es: seq<DirEntry>, e: DirEntry, extra: nat, name: seq<Byte>, j: nat)
    requires TailUnused(es) && extra > 0 && FirstByte(e) != 0 && name != e.name && name != [] && name[0] != 0xe5
    ensures LookupFrom(Inserted(es, FirstUsable(es), e, extra), name, j) == LookupFrom(es, name, j)
    decreases |es| + extra - j
  {
    var i := FirstUsable(es);
    var es' := Inserted(es, i, e, extra);
    if j < |es'| {
      InsertOthers(es, e, extra, name, j + 1);
      if j == i && i < |es| && FirstByte(es[i]) == 0 {
        UnusedEnds(es, name, i + 1);
      }
    }
  }

  lemma UnusedEnds(es: seq<DirEntry>, name: seq<Byte>, j: nat)
    requires TailUnused(es) && 0 < j && j - 1 < |es| && FirstByte(es[j - 1]) == 0
    ensures LookupFrom(es, name, j).None?
  {}

  // ----- all directories of a volume

  /** The chains of the directories, by their first clusters: apart from each other, nothing follows an unused
      slot, and the entries of directories lead to directories; 0 stands for the root. */
  ghost predicate Directories(fat: seq<nat>, slots: seq<seq<DirEntry>>, dirs: map<nat, seq<nat>>, root: nat) {
    && root in dirs && root != 0
    && (forall c :: c in dirs ==> dirs[c] != [] && dirs[c][0] == c && IsChain(fat, dirs[c]))
    && (forall c, d :: c in dirs && d in dirs && c != d ==> Disjoint(dirs[c], dirs[d]))
    && (forall c :: c in dirs ==> TailUnused(Flat(slots, dirs[c])))
    && (forall c, i: nat {:trigger Flat(slots, dirs[c])[i]} :: c in dirs && i < |Flat(slots, dirs[c])| ==> LeadsOn(Flat(slots, dirs[c])[i], dirs))
  }

  ghost predicate LeadsOn(e: DirEntry, dirs: map<nat, seq<nat>>) {
    e.attr == DIRECTORY && !Usable(e) ==> e.FirstCluster() == 0 || e.FirstCluster() in dirs
  }

  /** An entry, by its directory and its number. */
  datatype Spot = Spot(dir: nat, index: nat)

  /** The path without the slash it may begin with. */
  function Relative(path: seq<Byte>): (p: seq<Byte>)
    ensures |p| <= |path|
  {
    if path != [] && path[0] == SLASH then path[1..] else path
  }

  /** Where a path starts: a slash at the beginning and the cluster number 0 stand for the root. */
  function StartOf(path: seq<Byte>, start: nat, root: nat): nat {
    if (path != [] && path[0] == SLASH) || start == 0 then root else start
  }

  function Element(path: seq<Byte>): (e: seq<Byte>)
    ensures |e| <= |Relative(path)|
  {
    Relative(path)[..FirstOf(Relative(path), SLASH)]
  }

  /** Whether a slash follows the first element, and what follows the slash. */
  predicate PostSlash(path: seq<Byte>) {
    FirstOf(Relative(path), SLASH) < |Relative(path)|
  }

  function Rest(path: seq<Byte>): (rest: seq<Byte>)
    ensures rest != [] ==> |rest| < |path| && PostSlash(path)
  {
    if PostSlash(path) then Relative(path)[FirstOf(Relative(path), SLASH) + 1..] else []
  }

  /** What a path leads to, starting in directory `start`, and whether a slash follows the element found. */
  ghost function Resolve(slots: seq<seq<DirEntry>>, dirs: map<nat, seq<nat>>, root: nat, path: seq<Byte>, start: nat): (r: (Option<Spot>, bool))
    ensures r.0.Some? ==>
      r.0.value.dir in dirs && r.0.value.index < |Flat(slots, dirs[r.0.value.dir])|
      && FirstByte(Flat(slots, dirs[r.0.value.dir])[r.0.value.index]) != 0
    decreases |path|
  {
    var c := StartOf(path, start, root);
    if c !in dirs then (None, PostSlash(path))
    else
      var es := Flat(slots, dirs[c]);
      match Lookup(es, SearchForm(Element(path)))
      case None => (None, PostSlash(path))
      case Some(i) =>
        if es[i].attr == DIRECTORY && Rest(path) != [] then Resolve(slots, dirs, root, Rest(path), es[i].FirstCluster())
        else (Some(Spot(c, i)), PostSlash(path))
  }

  /** No element of the path is the name of a deleted entry. */
  ghost predicate PlainPath(path: seq<Byte>) {
    forall i :: 0 <= i < |path| ==> path[i] != 0 && path[i] != 0xe5
  }

  lemma PlainSearch(path: seq<Byte>)
    requires PlainPath(path)
    ensures SearchForm(path)[0] != 0 && SearchForm(path)[0] != 0xe5
  {
    if path != [] {
      if path[0] == DOT {
        SearchKeeps(path[1..], 8, Blank());
      } else {
        SearchKeeps(path[1..], 1, Blank()[0 := ToUpper(path[0])]);
      }
    }
  }

  lemma {:induction false} SearchKeeps(name: seq<Byte>, i83: nat, acc: seq<Byte>)
    requires |acc| == 11 && i83 > 0
    ensures SearchFrom(name, i83, acc)[0] == acc[0]
    decreases |name|
  {
    if name != [] && i83 < 11 {
      if name[0] == DOT {
        SearchKeeps(name[1..], 8, acc);
      } else {
        SearchKeeps(name[1..], i83 + 1, acc[i83 := ToUpper(name[0])]);
      }
    }
  }

  /** What creating a file does to the directories: directory `c` gets a new entry, which is not a directory. */
  ghost predicate Creates(slots: seq<seq<DirEntry>>, dirs: map<nat, seq<nat>>, slots': seq<seq<DirEntry>>, dirs': map<nat, seq<nat>>,
                          c: nat, e: DirEntry, extra: nat) {
    && c in dirs && dirs'.Keys == dirs.Keys && extra > 0 && FirstByte(e) != 0 && e.attr != DIRECTORY
    && (forall d :: d in dirs && d != c ==> Flat(slots', dirs'[d]) == Flat(slots, dirs[d]))
    && TailUnused(Flat(slots, dirs[c]))
    && Flat(slots', dirs'[c]) == Inserted(Flat(slots, dirs[c]), FirstUsable(Flat(slots, dirs[c])), e, extra)
  }

  /** Looking up a plain name in some directory gives what it gave before, or finds the new entry. */
  lemma LookupAfterCreate(slots: seq<seq<DirEntry>>, dirs: map<nat, seq<nat>>, slots': seq<seq<DirEntry>>,
                          dirs': map<nat, seq<nat>>, c: nat, e: DirEntry, extra: nat, d: nat, name: seq<Byte>)
    requires Creates(slots, dirs, slots', dirs', c, e, extra) && Lookup(Flat(slots, dirs[c]), e.name).None?
    requires d in dirs && name != [] && name[0] != 0xe5
    ensures var es, es' := Flat(slots, dirs[d]), Flat(slots', dirs'[d]);
      var r, r' := Lookup(es, name), Lookup(es', name);
      if r.Some? then r' == r && es'[r.value] == es[r.value]
      else r'.None? || (d == c && r' == Some(FirstUsable(Flat(slots, dirs[c]))) && es'[r'.value].attr != DIRECTORY)
  {
    var es := Flat(slots, dirs[d]);
    if d == c {
      if name == e.name {
        InsertFound(es, e, extra, 0);
      } else {
        InsertOthers(es, e, extra, name, 0);
      }
      if Lookup(es, name).Some? {
        FoundStays(es, e, extra, name);
      }
    }
  }

  /** Every path leads where it led before, or it led nowhere and now leads to the new entry. */
  lemma {:induction false} ResolveAfterCreate(slots: seq<seq<DirEntry>>, dirs: map<nat, seq<nat>>, slots': seq<seq<DirEntry>>,
                           dirs': map<nat, seq<nat>>, c: nat, e: DirEntry, extra: nat, root: nat, path: seq<Byte>, start: nat)
    requires Creates(slots, dirs, slots', dirs', c, e, extra) && Lookup(Flat(slots, dirs[c]), e.name).None?
    requires PlainPath(path)
    ensures var r, r' := Resolve(slots, dirs, root, path, start), Resolve(slots', dirs', root, path, start);
      r' == r || (r.0.None? && r'.0 == Some(Spot(c, FirstUsable(Flat(slots, dirs[c])))))
    decreases |path|
  {
    hide Lookup, Flat, SearchForm, FirstUsable, Element, Rest, PostSlash, StartOf;
    var d := StartOf(path, start, root);
    PlainParts(path);
    if d in dirs {
      var name := SearchForm(Element(path));
      PlainSearch(Element(path));
      LookupAfterCreate(slots, dirs, slots', dirs', c, e, extra, d, name);
      hide Creates;
      var es := Flat(slots, dirs[d]);
      var r := Lookup(es, name);
      if r.Some? && es[r.value].attr == DIRECTORY && Rest(path) != [] {
        ResolveAfterCreate(slots, dirs, slots', dirs', c, e, extra, root, Rest(path), es[r.value].FirstCluster());
      }
    }
  }

  lemma PlainParts(path: seq<Byte>)
    requires PlainPath(path)
    ensures PlainPath(Element(path)) && PlainPath(Rest(path))
  {}

  /** An entry that a plain name leads to is not the one replaced. */
  lemma FoundStays(es: seq<DirEntry>, e: DirEntry, extra: nat, name: seq<Byte>)
    requires extra > 0 && Lookup(es, name).Some? && name != [] && name[0] != 0xe5
    ensures Inserted(es, FirstUsable(es), e, extra)[Lookup(es, name).value] == es[Lookup(es, name).value]
  {}

  // ----- a path and its last element

  ghost predicate NoSlash(name: seq<Byte>) {
    name != [] && forall i :: 0 <= i < |name| ==> name[i] != SLASH
  }

  lemma FirstOfIs(s: seq<Byte>, b: Byte, i: nat)
    requires i < |s| && s[i] == b && forall j :: 0 <= j < i ==> s[j] != b
    ensures FirstOf(s, b) == i
  {}

  /** Adding an element keeps the first one. */
  lemma JoinParts(path: seq<Byte>, file: seq<Byte>)
    requires path != []
    ensures var q := path + [SLASH] + file;
      && PostSlash(q) && Element(q) == Element(path)
      && (forall start, root :: StartOf(q, start, root) == StartOf(path, start, root))
      && Rest(q) == if PostSlash(path) then Rest(path) + [SLASH] + file else file
  {
    JoinRelative(path, file);
    JoinSplit(Relative(path), file);
    hide FirstOf, Relative;
  }

  lemma JoinRelative(path: seq<Byte>, file: seq<Byte>)
    requires path != []
    ensures Relative(path + [SLASH] + file) == Relative(path) + [SLASH] + file
  {
    if path[0] == SLASH {
      assert (path + [SLASH] + file)[1..] == path[1..] + [SLASH] + file;
    }
  }

  /** Where the first slash of a joined path is, and what follows it. */
  lemma JoinSplit(p: seq<Byte>, file: seq<Byte>)
    ensures var q, f := p + [SLASH] + file, FirstOf(p, SLASH);
      && FirstOf(q, SLASH) == f && q[..f] == p[..f]
      && q[f + 1..] == if f < |p| then p[f + 1..] + [SLASH] + file else file
  {
    JoinFirst(p, file);
    JoinSlices(p, file, FirstOf(p, SLASH));
  }

  lemma JoinFirst(p: seq<Byte>, file: seq<Byte>)
    ensures FirstOf(p + [SLASH] + file, SLASH) == FirstOf(p, SLASH)
  {
    FirstOfIs(p + [SLASH] + file, SLASH, FirstOf(p, SLASH));
  }

  lemma JoinSlices(p: seq<Byte>, file: seq<Byte>, f: nat)
    requires f <= |p|
    ensures var q := p + [SLASH] + file;
      q[..f] == p[..f] && q[f + 1..] == if f < |p| then p[f + 1..] + [SLASH] + file else file
  {}

  lemma LastElement(file: seq<Byte>)
    requires NoSlash(file)
    ensures !PostSlash(file) && Element(file) == file && Rest(file) == []
    ensures forall start: nat, root: nat :: start != 0 ==> StartOf(file, start, root) == start
  {}

  /** An empty element ends the path: the search goes on at the root with what follows. */
  predicate TrailsSlash(path: seq<Byte>)
    decreases |path|
  {
    PostSlash(path) && (Rest(path) == [] || TrailsSlash(Rest(path)))
  }

  /** Every path followed by one more element: where the path leads nowhere or to a file, so does the longer one, and
      in a directory the element is looked up, but in the root when an empty element ended the path. */
  lemma {:induction false} ResolveJoin(slots: seq<seq<DirEntry>>, dirs: map<nat, seq<nat>>, root: nat, path: seq<Byte>,
                                       file: seq<Byte>, start: nat)
    requires path != [] && NoSlash(file)
    ensures var q := path + [SLASH] + file;
      match Resolve(slots, dirs, root, path, start).0
      case None => Resolve(slots, dirs, root, q, start).0.None?
      case Some(s) =>
        var e := Flat(slots, dirs[s.dir])[s.index];
        if e.attr != DIRECTORY then Resolve(slots, dirs, root, q, start).0 == Some(s)
        else Resolve(slots, dirs, root, q, start)
             == Resolve(slots, dirs, root, file, if TrailsSlash(path) then 0 else e.FirstCluster())
    decreases |path|
  {
    hide Lookup, Flat, SearchForm, Element, Rest, PostSlash, StartOf;
    JoinParts(path, file);
    var c := StartOf(path, start, root);
    if c in dirs {
      var es := Flat(slots, dirs[c]);
      var r := Lookup(es, SearchForm(Element(path)));
      if r.Some? && es[r.value].attr == DIRECTORY {
        if Rest(path) != [] {
          RestFollows(path);
          ResolveJoin(slots, dirs, root, Rest(path), file, es[r.value].FirstCluster());
        } else if PostSlash(path) {
          FromTheRoot(slots, dirs, root, file, es[r.value].FirstCluster());
          assert Rest(path) + [SLASH] + file == [SLASH] + file;
        }
      }
    }
  }

  lemma RestFollows(path: seq<Byte>)
    ensures Rest(path) != [] ==> PostSlash(path)
  {}

  lemma FromTheRoot(slots: seq<seq<DirEntry>>, dirs: map<nat, seq<nat>>, root: nat, file: seq<Byte>, start: nat)
    requires NoSlash(file)
    ensures Resolve(slots, dirs, root, [SLASH] + file, start) == Resolve(slots, dirs, root, file, 0)
  {
    hide Lookup, Flat, SearchForm, FirstOf;
    LastElement(file);
    assert Relative([SLASH] + file) == file && Relative(file) == file;
  }

  // ----- empty elements

  /** What a path's search is left with after the last empty element: the last part that begins with a slash again. */
  function Restarted(path: seq<Byte>): (p: seq<Byte>)
    ensures |p| <= |path|
    decreases |path|
  {
    if Rest(path) == [] then path
    else
      var p := Restarted(Rest(path));
      if p != [] && p[0] == SLASH then p else path
  }

  /** The elements before that part are directories. */
  ghost predicate GoesOn(slots: seq<seq<DirEntry>>, dirs: map<nat, seq<nat>>, root: nat, path: seq<Byte>, start: nat)
    decreases |path|
  {
    Restarted(path) == path ||
    var c := StartOf(path, start, root);
    && c in dirs
    && var es := Flat(slots, dirs[c]);
       var r := Lookup(es, SearchForm(Element(path)));
       r.Some? && es[r.value].attr == DIRECTORY && Rest(path) != [] && GoesOn(slots, dirs, root, Rest(path), es[r.value].FirstCluster())
  }

  /** Every path leads where the part after its last empty element leads from the root, unless an element before it
      is not found or is a file. */
  lemma {:induction false} ResolveRestarts(slots: seq<seq<DirEntry>>, dirs: map<nat, seq<nat>>, root: nat, path: seq<Byte>, start: nat)
    requires Restarted(path) != path
    ensures Restarted(path)[..1] == [SLASH]
    ensures var r := Resolve(slots, dirs, root, path, start);
      if GoesOn(slots, dirs, root, path, start) then r == Resolve(slots, dirs, root, Restarted(path), 0)
      else r.0.None? || Flat(slots, dirs[r.0.value.dir])[r.0.value.index].attr != DIRECTORY
    decreases |path|
  {
    hide Lookup, Flat, SearchForm, Element, PostSlash;
    var rest := Rest(path);
    var c := StartOf(path, start, root);
    if c in dirs {
      var es := Flat(slots, dirs[c]);
      var r := Lookup(es, SearchForm(Element(path)));
      if r.Some? && es[r.value].attr == DIRECTORY {
        var next := es[r.value].FirstCluster();
        if Restarted(rest) == rest {
          SlashRestarts(slots, dirs, root, rest, next);
          assert GoesOn(slots, dirs, root, rest, next);
        } else {
          ResolveRestarts(slots, dirs, root, rest, next);
        }
      }
    }
    RestartedSlash(path);
  }

  lemma {:induction false} RestartedSlash(path: seq<Byte>)
    requires Restarted(path) != path
    ensures Restarted(path) != [] && Restarted(path)[0] == SLASH
  {}

  lemma SlashRestarts(slots: seq<seq<DirEntry>>, dirs: map<nat, seq<nat>>, root: nat, path: seq<Byte>, start: nat)
    requires path != [] && path[0] == SLASH
    ensures Resolve(slots, dirs, root, path, start) == Resolve(slots, dirs, root, path, 0)
  {
    hide Lookup, Flat, SearchForm, Element, Rest, PostSlash;
  }

  /** How the restart of a path depends on its directory part. */
  lemma {:induction false} RestartOfJoin(path: seq<Byte>, file: seq<Byte>)
    requires path != [] && NoSlash(file)
    ensures Restarted(path + [SLASH] + file) == if TrailsSlash(path) then [SLASH] + file else Restarted(path) + [SLASH] + file
    decreases |path|
  {
    hide Element, Rest, PostSlash;
    JoinParts(path, file);
    LastElement(file);
    if Rest(path) != [] {
      RestFollows(path);
      RestartOfJoin(Rest(path), file);
    } else if PostSlash(path) {
      assert Rest(path) + [SLASH] + file == [SLASH] + file;
      AbsoluteElement(file);
    }
  }

  lemma AbsoluteElement(file: seq<Byte>)
    requires NoSlash(file)
    ensures Rest([SLASH] + file) == []
  {
    hide FirstOf;
    assert Relative([SLASH] + file) == file;
    LastElement(file);
  }

  /** The slashes at the end of a path. */
  function SlashesAtEnd(path: seq<Byte>): (n: nat)
    ensures n <= |path| && (n < |path| ==> path[|path| - n - 1] != SLASH)
    ensures forall i :: |path| - n <= i < |path| ==> path[i] == SLASH
  {
    if path == [] || path[|path| - 1] != SLASH then 0 else 1 + SlashesAtEnd(path[..|path| - 1])
  }

  /** An empty element ends a path exactly when an odd number of slashes does, or an even one if there is nothing
      else: the slash after an empty element counts as that of an absolute path. */
  lemma {:induction false} TrailsByParity(path: seq<Byte>)
    ensures var n := SlashesAtEnd(path);
      TrailsSlash(path) <==> if n == |path| then n > 0 && n % 2 == 0 else n % 2 == 1
    decreases |path|
  {
    hide SlashesAtEnd, TrailsSlash, FirstOf, Relative;
    var p := Relative(path);
    var f := FirstOf(p, SLASH);
    TrailsNext(path);
    if f < |p| {
      var rest := p[f + 1..];
      EndOfRest(path);
      if rest != [] {
        TrailsByParity(rest);
      }
    } else {
      NoSlashAtEnd(path);
    }
  }

  lemma TrailsNext(path: seq<Byte>)
    ensures var p := Relative(path);
      var f := FirstOf(p, SLASH);
      TrailsSlash(path) <==> f < |p| && (p[f + 1..] == [] || TrailsSlash(p[f + 1..]))
  {}

  lemma EndOfRest(path: seq<Byte>)
    requires FirstOf(Relative(path), SLASH) < |Relative(path)|
    ensures var rest := Relative(path)[FirstOf(Relative(path), SLASH) + 1..];
      var n, m := SlashesAtEnd(path), SlashesAtEnd(rest);
      && (n == |path| ==> m == |rest| == n - 2)
      && (n < |path| && m == |rest| ==> n == m + 1)
      && (n < |path| && m < |rest| ==> n == m)
  {
    hide SlashesAtEnd, FirstOf;
    var p := Relative(path);
    var at := |path| - |p| + FirstOf(p, SLASH) + 1;
    assert p[FirstOf(p, SLASH) + 1..] == path[at..] && path[at - 1] == SLASH;
    EndOfSuffix(path, at);
    if SlashesAtEnd(path) >= |path| - at {
      AtLeast(path, at);
      BeforeRest(path);
    }
  }

  /** A slash before slashes counts too. */
  lemma AtLeast(path: seq<Byte>, at: nat)
    requires 0 < at <= |path| && path[at - 1] == SLASH && SlashesAtEnd(path) >= |path| - at
    ensures SlashesAtEnd(path) > |path| - at
  {
    hide SlashesAtEnd;
  }

  lemma NoSlashAtEnd(path: seq<Byte>)
    requires FirstOf(Relative(path), SLASH) == |Relative(path)|
    ensures SlashesAtEnd(path) == if path == [SLASH] then 1 else 0
  {
    hide FirstOf;
  }

  lemma EndOfSuffix(path: seq<Byte>, at: nat)
    requires at <= |path|
    ensures SlashesAtEnd(path[at..]) == if SlashesAtEnd(path) <= |path| - at then SlashesAtEnd(path) else |path| - at
  {
    hide SlashesAtEnd;
    var rest := path[at..];
    var n, m := SlashesAtEnd(path), SlashesAtEnd(rest);
    assert m < |rest| ==> rest[|rest| - m - 1] == path[|path| - m - 1];
    assert n < |path| && n < |rest| ==> rest[|rest| - n - 1] == path[|path| - n - 1];
  }

  /** Slashes from the end up to the one that ends the first element: either that is the last of them, or there is
      nothing else. */
  lemma BeforeRest(path: seq<Byte>)
    requires var p := Relative(path); FirstOf(p, SLASH) < |p| && SlashesAtEnd(path) > |p| - FirstOf(p, SLASH) - 1
    ensures var p := Relative(path);
      var n, rest := SlashesAtEnd(path), |p| - FirstOf(p, SLASH) - 1;
      if n == |path| then n == rest + 2 else n == rest + 1
  {
    hide SlashesAtEnd, FirstOf;
    var p := Relative(path);
    var f, k, n := FirstOf(p, SLASH), |path| - |p|, SlashesAtEnd(path);
    if f > 0 {
      assert path[k + f - 1] == p[f - 1];
    } else {
      assert path[k] == p[0];
    }
  }

  // ----- creating a file and finding it

  ghost function NewEntry(file: seq<Byte>): DirEntry {
    EMPTY_ENTRY.(name := StoredForm(file, LastOf(file, DOT)))
  }

  lemma NewEntryIs(file: seq<Byte>)
    requires PlainPath(file) && NoSlash(file)
    ensures FirstByte(NewEntry(file)) != 0 && NewEntry(file).attr != DIRECTORY
  {
    assert LastOf(file, DOT) != 0 ==> StoredForm(file, LastOf(file, DOT))[0] == ToUpper(file[0]);
  }

  /** The directory part of a path, and whether there is one. */
  ghost function ParentOf(path: seq<Byte>): seq<Byte> {
    if LastOf(path, SLASH) >= 0 then path[..LastOf(path, SLASH)] else []
  }

  function FileOf(path: seq<Byte>): seq<Byte> {
    path[LastOf(path, SLASH) + 1..]
  }

  /** The directory in which a path's file is created, when there is one. */
  ghost function ParentDir(slots: seq<seq<DirEntry>>, dirs: map<nat, seq<nat>>, root: nat, path: seq<Byte>): Option<nat> {
    if ParentOf(path) == [] then Some(root)
    else match Resolve(slots, dirs, root, ParentOf(path), 0).0
      case Some(spot) => Some(Flat(slots, dirs[spot.dir])[spot.index].FirstCluster())
      case None => None
  }

  /** The file is looked for where it is created: its directory part is empty, or leads to a directory and does not
      end in an empty element, unless that directory is the root. */
  ghost predicate SoughtThere(slots: seq<seq<DirEntry>>, dirs: map<nat, seq<nat>>, root: nat, path: seq<Byte>) {
    var parent := ParentOf(path);
    parent == [] ||
    match Resolve(slots, dirs, root, parent, 0).0
    case None => false
    case Some(s) =>
      var e := Flat(slots, dirs[s.dir])[s.index];
      e.attr == DIRECTORY && (TrailsSlash(parent) ==> e.FirstCluster() == root)
  }

  /** The entry a path led to is still there. */
  lemma {:induction false} EntryStays(slots: seq<seq<DirEntry>>, dirs: map<nat, seq<nat>>, slots': seq<seq<DirEntry>>, dirs': map<nat, seq<nat>>,
                     root: nat, c: nat, e: DirEntry, extra: nat, path: seq<Byte>, start: nat)
    requires Creates(slots, dirs, slots', dirs', c, e, extra) && Lookup(Flat(slots, dirs[c]), e.name).None?
    requires PlainPath(path)
    requires Resolve(slots, dirs, root, path, start).0.Some?
    ensures var s := Resolve(slots, dirs, root, path, start).0.value;
      && s.dir in dirs' && s.index < |Flat(slots', dirs'[s.dir])|
      && Flat(slots', dirs'[s.dir])[s.index] == Flat(slots, dirs[s.dir])[s.index]
    decreases |path|
  {
    hide Lookup, Flat, SearchForm, FirstUsable, Element, Rest, PostSlash, StartOf;
    var d := StartOf(path, start, root);
    PlainParts(path);
    PlainSearch(Element(path));
    LookupAfterCreate(slots, dirs, slots', dirs', c, e, extra, d, SearchForm(Element(path)));
    hide Creates;
    var es := Flat(slots, dirs[d]);
    var i := Lookup(es, SearchForm(Element(path))).value;
    if es[i].attr == DIRECTORY && Rest(path) != [] {
      EntryStays(slots, dirs, slots', dirs', root, c, e, extra, Rest(path), es[i].FirstCluster());
    }
  }

  lemma PathParts(path: seq<Byte>)
    requires PlainPath(path) && FileOf(path) != []
    ensures NoSlash(FileOf(path)) && PlainPath(FileOf(path)) && PlainPath(ParentOf(path))
    ensures if LastOf(path, SLASH) < 0 then path == FileOf(path) && ParentOf(path) == []
            else path == ParentOf(path) + [SLASH] + FileOf(path)
  {
    hide LastOf;
  }

  /** An entry that a plain path leads to is in use. */
  lemma {:induction false} ResolvedInUse(slots: seq<seq<DirEntry>>, dirs: map<nat, seq<nat>>, root: nat, path: seq<Byte>, start: nat)
    requires PlainPath(path) && Resolve(slots, dirs, root, path, start).0.Some?
    ensures var s := Resolve(slots, dirs, root, path, start).0.value; !Usable(Flat(slots, dirs[s.dir])[s.index])
    decreases |path|
  {
    hide Flat, SearchForm, Element, Rest, PostSlash, StartOf;
    PlainParts(path);
    PlainSearch(Element(path));
    var es := Flat(slots, dirs[StartOf(path, start, root)]);
    var i := Lookup(es, SearchForm(Element(path))).value;
    if es[i].attr == DIRECTORY && Rest(path) != [] {
      ResolvedInUse(slots, dirs, root, Rest(path), es[i].FirstCluster());
    }
  }

  /** In a directory the new name is looked up: found in the directory where it was created, if names are stored as
      they are looked for, and as before elsewhere. */
  lemma FindNew(slots: seq<seq<DirEntry>>, dirs: map<nat, seq<nat>>, slots': seq<seq<DirEntry>>, dirs': map<nat, seq<nat>>,
                root: nat, c: nat, file: seq<Byte>, extra: nat, d: nat)
    requires NoSlash(file) && PlainPath(file) && d != 0 && d in dirs
    requires Creates(slots, dirs, slots', dirs', c, NewEntry(file), extra)
    requires Lookup(Flat(slots, dirs[c]), SearchForm(file)).None?
    ensures var found := Resolve(slots', dirs', root, file, d);
      found.0 == Some(Spot(c, FirstUsable(Flat(slots, dirs[c])))) <==> d == c && Findable(file)
    ensures !Resolve(slots', dirs', root, file, d).1
  {
    hide Flat, SearchForm, StoredForm, Findable, FirstUsable;
    StoredIsSearched(file);
    LastElement(file);
    PlainSearch(file);
    if d == c {
      if Findable(file) {
        InsertFound(Flat(slots, dirs[c]), NewEntry(file), extra, 0);
      } else {
        InsertOthers(Flat(slots, dirs[c]), NewEntry(file), extra, SearchForm(file), 0);
      }
    }
  }

  /** Creating a file and then looking for it by the same path: the path leads to the new entry exactly when the name
      is looked for as it is stored, and in the directory in which it was created. */
  lemma CreateThenFind(slots: seq<seq<DirEntry>>, dirs: map<nat, seq<nat>>, slots': seq<seq<DirEntry>>, dirs': map<nat, seq<nat>>,
                       root: nat, path: seq<Byte>, c: nat, extra: nat)
    requires PlainPath(path) && FileOf(path) != [] && root in dirs && root != 0 && c in dirs && c != 0
    requires ParentDir(slots, dirs, root, path) == Some(c)
    requires Creates(slots, dirs, slots', dirs', c, NewEntry(FileOf(path)), extra)
    requires Lookup(Flat(slots, dirs[c]), SearchForm(FileOf(path))).None?
    requires Lookup(Flat(slots, dirs[c]), NewEntry(FileOf(path)).name).None?
    ensures Resolve(slots', dirs', root, path, 0).0 == Some(Spot(c, FirstUsable(Flat(slots, dirs[c]))))
      <==> Findable(FileOf(path)) && SoughtThere(slots, dirs, root, path)
  {
    hide Lookup, Flat, SearchForm, Creates, FirstUsable, Inserted, Findable, TrailsSlash, LastOf, NewEntry;
    var parent, file := ParentOf(path), FileOf(path);
    PathParts(path);
    if parent == [] {
      FindNew(slots, dirs, slots', dirs', root, c, file, extra, root);
      NamedInRoot(slots', dirs', root, path);
    } else {
      var s := Resolve(slots, dirs, root, parent, 0).0.value;
      ResolveAfterCreate(slots, dirs, slots', dirs', c, NewEntry(file), extra, root, parent, 0);
      EntryStays(slots, dirs, slots', dirs', root, c, NewEntry(file), extra, parent, 0);
      ResolveJoin(slots', dirs', root, parent, file, 0);
      InUseIsNotUsable(slots, dirs, root, parent, c);
      FindNew(slots, dirs, slots', dirs', root, c, file, extra, if TrailsSlash(parent) then root else c);
      NamedFromZero(slots', dirs', root, file);
    }
  }

  lemma InUseIsNotUsable(slots: seq<seq<DirEntry>>, dirs: map<nat, seq<nat>>, root: nat, path: seq<Byte>, c: nat)
    requires PlainPath(path) && Resolve(slots, dirs, root, path, 0).0.Some? && c in dirs
    ensures Resolve(slots, dirs, root, path, 0).0 != Some(Spot(c, FirstUsable(Flat(slots, dirs[c]))))
  {
    hide Flat, FirstUsable, Resolve;
    ResolvedInUse(slots, dirs, root, path, 0);
  }

  lemma NamedFromZero(slots: seq<seq<DirEntry>>, dirs: map<nat, seq<nat>>, root: nat, file: seq<Byte>)
    requires NoSlash(file)
    ensures Resolve(slots, dirs, root, file, 0) == Resolve(slots, dirs, root, file, root)
  {
    hide Flat, SearchForm, Lookup, FirstOf;
    LastElement(file);
  }

  lemma NamedInRoot(slots: seq<seq<DirEntry>>, dirs: map<nat, seq<nat>>, root: nat, path: seq<Byte>)
    requires PlainPath(path) && FileOf(path) != [] && ParentOf(path) == []
    ensures Resolve(slots, dirs, root, path, 0) == Resolve(slots, dirs, root, FileOf(path), root)
  {
    hide Resolve, LastOf;
    PathParts(path);
    NamedFromZero(slots, dirs, root, FileOf(path));
    if LastOf(path, SLASH) >= 0 {
      assert path == [SLASH] + FileOf(path);
      FromTheRoot(slots, dirs, root, FileOf(path), 0);
    }
  }

  /** The same in the root, with or without a slash before the name. */
  lemma CreateInRootThenFind(slots: seq<seq<DirEntry>>, dirs: map<nat, seq<nat>>, slots': seq<seq<DirEntry>>, dirs': map<nat, seq<nat>>,
                             root: nat, file: seq<Byte>, extra: nat)
    requires NoSlash(file) && PlainPath(file) && root in dirs && root != 0
    requires Creates(slots, dirs, slots', dirs', root, NewEntry(file), extra)
    requires Lookup(Flat(slots, dirs[root]), SearchForm(file)).None?
    ensures var found := Some(Spot(root, FirstUsable(Flat(slots, dirs[root]))));
      && (Resolve(slots', dirs', root, file, 0).0 == found <==> Findable(file))
      && (Resolve(slots', dirs', root, [SLASH] + file, 0).0 == found <==> Findable(file))
  {
    hide Resolve, Flat, SearchForm, FirstUsable, Creates, Findable;
    FindNew(slots, dirs, slots', dirs', root, root, file, extra, root);
    NamedFromZero(slots', dirs', root, file);
    FromTheRoot(slots', dirs', root, file, 0);
  }

  /** Two slashes in a row: the file is created in the directory before them and looked for in the root, so that it
      is found only if that directory is the root. */
  lemma DoubleSlashRestarts(slots: seq<seq<DirEntry>>, dirs: map<nat, seq<nat>>, slots': seq<seq<DirEntry>>, dirs': map<nat, seq<nat>>,
                            root: nat, sub: seq<Byte>, file: seq<Byte>, c: nat, extra: nat)
    requires sub != [] && sub[|sub| - 1] != SLASH && NoSlash(file) && PlainPath(sub) && PlainPath(file)
    requires root in dirs && root != 0 && c in dirs && c != 0
    requires var r := Resolve(slots, dirs, root, sub, 0).0;
      r.Some? && Flat(slots, dirs[r.value.dir])[r.value.index].attr == DIRECTORY
      && Flat(slots, dirs[r.value.dir])[r.value.index].FirstCluster() == c
    requires Creates(slots, dirs, slots', dirs', c, NewEntry(file), extra)
    requires Lookup(Flat(slots, dirs[c]), SearchForm(file)).None? && Lookup(Flat(slots, dirs[c]), NewEntry(file).name).None?
    ensures var path := sub + [SLASH] + [SLASH] + file;
      && ParentDir(slots, dirs, root, path) == Some(c) && FileOf(path) == file
      && (Resolve(slots', dirs', root, path, 0).0 == Some(Spot(c, FirstUsable(Flat(slots, dirs[c]))))
          <==> Findable(file) && c == root)
  {
    hide Lookup, Flat, SearchForm, Creates, FirstUsable, Findable, Resolve, NewEntry, TrailsSlash, LastOf;
    var path := sub + [SLASH] + [SLASH] + file;
    var parent := sub + [SLASH];
    LastSlashIs(parent, file);
    SlashAtEnd(slots, dirs, root, sub, 0);
    CreateThenFind(slots, dirs, slots', dirs', root, path, c, extra);
  }

  lemma LastSlashIs(parent: seq<Byte>, file: seq<Byte>)
    requires NoSlash(file)
    ensures var path := parent + [SLASH] + file; LastOf(path, SLASH) == |parent| && ParentOf(path) == parent && FileOf(path) == file
  {
    var path := parent + [SLASH] + file;
    assert path[|parent|] == SLASH;
    hide LastOf;
    assert forall i :: |parent| < i < |path| ==> path[i] == file[i - |parent| - 1];
  }

  /** One slash at the end changes nothing but what follows it. */
  lemma {:induction false} SlashAtEnd(slots: seq<seq<DirEntry>>, dirs: map<nat, seq<nat>>, root: nat, path: seq<Byte>, start: nat)
    requires path != [] && path[|path| - 1] != SLASH
    ensures Resolve(slots, dirs, root, path + [SLASH], start).0 == Resolve(slots, dirs, root, path, start).0
    ensures TrailsSlash(path + [SLASH])
    decreases |path|
  {
    hide Lookup, Flat, SearchForm, Element, Rest, PostSlash, StartOf;
    JoinParts(path, []);
    assert path + [SLASH] + [] == path + [SLASH];
    RestEnd(path);
    var c := StartOf(path, start, root);
    if PostSlash(path) {
      if c in dirs {
        var es := Flat(slots, dirs[c]);
        var r := Lookup(es, SearchForm(Element(path)));
        SlashAtEnd(slots, dirs, root, Rest(path), if r.Some? then es[r.value].FirstCluster() else 0);
      } else {
        SlashAtEnd(slots, dirs, root, Rest(path), 0);
      }
      assert Rest(path) + [SLASH] + [] == Rest(path) + [SLASH];
    }
  }

  lemma RestEnd(path: seq<Byte>)
    requires path != [] && path[|path| - 1] != SLASH
    ensures if PostSlash(path) then Rest(path) != [] && Rest(path)[|Rest(path)| - 1] != SLASH else Rest(path) == []
  {
    hide FirstOf;
  }

  // ----- a file in place of a directory

  /** A path whose directory part leads to a file: the new entry goes to the clusters of that file, and the path leads
      to the file itself. */
  lemma FileAsParent(slots: seq<seq<DirEntry>>, dirs: map<nat, seq<nat>>, root: nat, path: seq<Byte>)
    requires PlainPath(path) && FileOf(path) != [] && ParentOf(path) != []
    requires Resolve(slots, dirs, root, ParentOf(path), 0).0.Some?
    ensures var s := Resolve(slots, dirs, root, ParentOf(path), 0).0.value;
      var e := Flat(slots, dirs[s.dir])[s.index];
      e.attr != DIRECTORY ==>
        ParentDir(slots, dirs, root, path) == Some(e.FirstCluster()) && Resolve(slots, dirs, root, path, 0).0 == Some(s)
  {
    hide Resolve, Flat, LastOf;
    PathParts(path);
    ResolveJoin(slots, dirs, root, ParentOf(path), FileOf(path), 0);
  }

  /** No file begins in a cluster in which a directory begins. */
  ghost predicate FilesApart(slots: seq<seq<DirEntry>>, dirs: map<nat, seq<nat>>) {
    forall c, i: nat {:trigger Flat(slots, dirs[c])[i]} :: c in dirs && i < |Flat(slots, dirs[c])| ==>
      var e := Flat(slots, dirs[c])[i]; e.attr != DIRECTORY ==> e.FirstCluster() !in dirs
  }

  /** The new entry goes to a directory exactly when the directory part of the path is empty or leads to an entry with
      the directory attribute and a first cluster. */
  lemma CreatesInDirectory(fat: seq<nat>, slots: seq<seq<DirEntry>>, dirs: map<nat, seq<nat>>, root: nat, path: seq<Byte>)
    requires Directories(fat, slots, dirs, root) && 0 !in dirs && FilesApart(slots, dirs) && PlainPath(path)
    requires ParentDir(slots, dirs, root, path).Some?
    ensures ParentDir(slots, dirs, root, path).value in dirs <==>
      ParentOf(path) == [] ||
      var s := Resolve(slots, dirs, root, ParentOf(path), 0).0.value;
      var e := Flat(slots, dirs[s.dir])[s.index];
      e.attr == DIRECTORY && e.FirstCluster() != 0
  {
    hide Resolve, Flat, LastOf, Usable;
    var parent := ParentOf(path);
    if parent != [] {
      var s := Resolve(slots, dirs, root, parent, 0).0.value;
      ResolvedInUse(slots, dirs, root, parent, 0);
      assert LeadsOn(Flat(slots, dirs[s.dir])[s.index], dirs);
    }
  }
}
