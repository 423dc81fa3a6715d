/** Finding and creating files by their paths (kernel/fat.cpp: FindFile, AllocateEntry, CreateFile). */
module FatPaths {
  import opened Basics
  import opened FatChains
  import opened FatVolume
  import opened FatContents
  import opened FatNames
  import opened FatDirectory

  /** Where an entry is: a slot of a cluster. */
  datatype Place = Place(cluster: nat, index: nat)

  /** The place of entry number `i` of the chain `cs`. */
  ghost predicate Locates(cs: seq<nat>, i: nat, place: Place, per: nat) {
    exists k: nat :: k < |cs| && place.cluster == cs[k] && place.index < per && i == Start(k, per) + place.index
  }

  function SlotsPer(volume: Volume): nat {
    volume.bytesPerCluster / ENTRY_SIZE
  }

  ghost predicate Mounted(volume: Volume, dirs: map<nat, seq<nat>>)
    reads volume.fat, volume.data, volume.slots
  {
    volume.Valid() && Directories(volume.fat[..], volume.slots[..], dirs, volume.rootCluster)
  }

  lemma SlotOf(fat: seq<nat>, slots: seq<seq<DirEntry>>, cs: seq<nat>, k: nat, i: nat, per: nat)
    requires IsChain(fat, cs) && |slots| == |fat| && Sized(slots, per) && k < |cs| && i < per
    ensures cs[k] < |slots| && |slots[cs[k]]| == per
    ensures Start(k, per) + i < |Flat(slots, cs)| == Start(|cs|, per)
    ensures Flat(slots, cs)[Start(k, per) + i] == slots[cs[k]][i]
    ensures Locates(cs, Start(k, per) + i, Place(cs[k], i), per)
  {
    ReadChunk(slots, cs, k, i, 1, per);
    FlatLength(slots, cs, per);
    assert slots[cs[k]][i..i + 1][0] == Flat(slots, cs)[Start(k, per) + i..Start(k, per) + i + 1][0];
  }

  lemma LookupStep(es: seq<DirEntry>, name: seq<Byte>, i: nat)
    requires i < |es|
    ensures LookupFrom(es, name, i) == if FirstByte(es[i]) == 0 then None else if es[i].name == name then Some(i) else LookupFrom(es, name, i + 1)
  {}

  lemma ChainSlots(fat: seq<nat>, slots: seq<seq<DirEntry>>, cs: seq<nat>, per: nat)
    requires IsChain(fat, cs) && |slots| == |fat| && Sized(slots, per)
    ensures |Flat(slots, cs)| == Start(|cs|, per) && cs != []
  {
    FlatLength(slots, cs, per);
  }

  lemma ChainPassed(fat: seq<nat>, cs: seq<nat>, k: nat)
    requires |fat| <= MAX_CLUSTERS && IsChain(fat, cs) && k <= |cs|
    requires (if k < |cs| then cs[k] else END_OF_CHAIN) == END_OF_CHAIN
    ensures k == |cs|
  {
    if k < |cs| {
      ChainStep(fat, cs, k);
    }
  }

  /** The search of one directory for a path element. */
  method SearchDirectory(volume: Volume, directory: nat, element: seq<Byte>, ghost cs: seq<nat>)
    returns (place: Option<Place>, ghost index: Option<nat>)
    requires volume.Valid() && IsChain(volume.fat[..], cs) && directory == cs[0]
    ensures index == Lookup(Flat(volume.slots[..], cs), SearchForm(element))
    ensures place.Some? <==> index.Some?
    ensures place.Some? ==>
      && Locates(cs, index.value, place.value, SlotsPer(volume)) && index.value < |Flat(volume.slots[..], cs)|
      && place.value.cluster < volume.slots.Length && place.value.index < |volume.slots[place.value.cluster]|
      && volume.slots[place.value.cluster][place.value.index] == Flat(volume.slots[..], cs)[index.value]
  {
    hide Flat, Start, IsPath, IsEnd, SearchForm, LookupFrom, Locates;
    ghost var fat, slots, per, name := volume.fat[..], volume.slots[..], SlotsPer(volume), SearchForm(element);
    ghost var es := Flat(slots, cs);
    var c := directory;
    ghost var k := 0;
    StartNext(0, per);
    ChainSlots(fat, slots, cs, per);
    while c != END_OF_CHAIN
      invariant k <= |cs| && c == (if k < |cs| then cs[k] else END_OF_CHAIN)
      invariant LookupFrom(es, name, Start(k, per)) == Lookup(es, name)
      decreases |cs| - k
    {
      ChainLinks(fat, cs, k);
      for i := 0 to SlotsPer(volume)
        invariant LookupFrom(es, name, Start(k, per) + i) == Lookup(es, name)
      {
        SlotOf(fat, slots, cs, k, i, per);
        LookupStep(es, name, Start(k, per) + i);
        var entry := volume.slots[c][i];
        if FirstByte(entry) == 0 {
          return None, None;
        }
        var equal := NameIsEqual(entry, element);
        if equal {
          return Some(Place(c, i)), Some(Start(k, per) + i);
        }
      }
      StartNext(k, per);
      c := volume.NextCluster(c);
      k := k + 1;
    }
    place, index := None, None;
    ChainPassed(fat, cs, k);
    NotInDirectory(es, name);
  }

  lemma NotInDirectory(es: seq<DirEntry>, name: seq<Byte>)
    ensures LookupFrom(es, name, |es|).None?
  {}

  lemma ChainLinks(fat: seq<nat>, cs: seq<nat>, k: nat)
    requires |fat| <= MAX_CLUSTERS && IsChain(fat, cs) && k <= |cs|
    requires (if k < |cs| then cs[k] else END_OF_CHAIN) != END_OF_CHAIN
    ensures k < |cs| && cs[k] < |fat|
    ensures (if IsEnd(fat[cs[k]]) then END_OF_CHAIN else fat[cs[k]]) == if k + 1 < |cs| then cs[k + 1] else END_OF_CHAIN
  {
    ChainStep(fat, cs, k);
  }

  lemma PlainPrefix(path: seq<Byte>, n: nat)
    requires PlainPath(path) && n <= |path|
    ensures PlainPath(path[..n])
  {}

  /** What a path leads to, directory by directory. */
  method FindFile(volume: Volume, path: seq<Byte>, start: nat, ghost dirs: map<nat, seq<nat>>)
    returns (place: Option<Place>, postSlash: bool, ghost spot: Option<Spot>)
    requires Mounted(volume, dirs) && (start == 0 || start in dirs) && PlainPath(path)
    ensures (spot, postSlash) == Resolve(volume.slots[..], dirs, volume.rootCluster, path, start)
    ensures place.Some? <==> spot.Some?
    ensures place.Some? ==>
      && Locates(dirs[spot.value.dir], spot.value.index, place.value, SlotsPer(volume))
      && place.value.cluster < volume.slots.Length && place.value.index < |volume.slots[place.value.cluster]|
      && volume.slots[place.value.cluster][place.value.index] == Flat(volume.slots[..], dirs[spot.value.dir])[spot.value.index]
    decreases |path|
  {
    hide Flat, Start, IsChain, SearchForm, LookupFrom, Locates, Element, Rest, PostSlash, StartOf;
    var directory := StartOf(path, start, volume.rootCluster);
    StartsIn(path, start, volume.rootCluster, dirs);
    PlainParts(path);
    PlainSearch(Element(path));
    ghost var index;
    place, index := SearchDirectory(volume, directory, Element(path), dirs[directory]);
    postSlash := PostSlash(path);
    spot := None;
    if place.Some? {
      var entry := volume.slots[place.value.cluster][place.value.index];
      if entry.attr == DIRECTORY && Rest(path) != [] {
        NotDeleted(volume.slots[..], dirs, directory, index.value, SearchForm(Element(path)));
        place, postSlash, spot := FindFile(volume, Rest(path), entry.FirstCluster(), dirs);
      } else {
        spot := Some(Spot(directory, index.value));
      }
    }
  }

  lemma StartsIn(path: seq<Byte>, start: nat, root: nat, dirs: map<nat, seq<nat>>)
    requires root in dirs && (start == 0 || start in dirs)
    ensures StartOf(path, start, root) in dirs
  {}

  /** An entry found by a plain name is in use, so that a directory entry leads on. */
  lemma NotDeleted(slots: seq<seq<DirEntry>>, dirs: map<nat, seq<nat>>, c: nat, i: nat, name: seq<Byte>)
    requires c in dirs && i < |Flat(slots, dirs[c])| && name != [] && name[0] != 0xe5
    requires Lookup(Flat(slots, dirs[c]), name) == Some(i)
    requires forall i: nat {:trigger Flat(slots, dirs[c])[i]} :: i < |Flat(slots, dirs[c])| ==> LeadsOn(Flat(slots, dirs[c])[i], dirs)
    ensures var e := Flat(slots, dirs[c])[i]; e.attr == DIRECTORY ==> e.FirstCluster() == 0 || e.FirstCluster() in dirs
  {
    assert LeadsOn(Flat(slots, dirs[c])[i], dirs);
  }

  // ----- new entries

  lemma UsableStep(es: seq<DirEntry>, i: nat)
    requires i <= FirstUsable(es)
    ensures i < |es| && Usable(es[i]) ==> FirstUsable(es) == i
    ensures i < |es| && !Usable(es[i]) ==> i + 1 <= FirstUsable(es)
    ensures i == |es| ==> FirstUsable(es) == i
  {
    assert i < |es| && Usable(es[i]) ==> FirstUsable(es) <= i;
  }

  ghost predicate SlotTaken(fat: seq<nat>, slots: seq<seq<DirEntry>>, cs: seq<nat>,
                            fat': seq<nat>, slots': seq<seq<DirEntry>>, cs': seq<nat>, place: Place, per: nat) {
    && IsChain(fat, cs) && |slots| == |fat| && Sized(slots, per) && FreeCount(fat, 2) >= 1
    && var es := Flat(slots, cs);
       if FirstUsable(es) < |es| then
         cs' == cs && fat' == fat && slots' == slots && Locates(cs, FirstUsable(es), place, per)
       else
         && cs' == cs + FirstFree(fat, 2, 1) && place == Place(cs'[|cs|], 0) && place.cluster < |slots|
         && fat' == Extended(fat, cs[|cs| - 1], 1)
         && slots' == slots[place.cluster := Unused(per)]
  }

  /** A slot for a new entry: the first usable one, or the first one of a cluster of unused slots added to the
      directory. */
  method AllocateEntry(volume: Volume, dirCluster: nat, ghost cs: seq<nat>) returns (place: Place, ghost cs': seq<nat>)
    requires volume.Valid() && IsChain(volume.fat[..], cs) && dirCluster == cs[0] && FreeCount(volume.fat[..], 2) >= 1
    modifies volume.fat, volume.slots
    ensures volume.Valid()
    ensures SlotTaken(old(volume.fat[..]), old(volume.slots[..]), cs, volume.fat[..], volume.slots[..], cs', place, SlotsPer(volume))
  {
    hide Flat, Start, IsPath, IsEnd, FirstUsable, Usable, Locates, FirstFree, FreeCount, Extended;
    ghost var fat, slots, per := volume.fat[..], volume.slots[..], SlotsPer(volume);
    ghost var es := Flat(slots, cs);
    var c := dirCluster;
    cs' := cs;
    ghost var k := 0;
    StartNext(0, per);
    ChainSlots(fat, slots, cs, per);
    while true
      invariant k < |cs| && c == cs[k] && Start(k, per) <= FirstUsable(es)
      decreases |cs| - k
      modifies {}
    {
      ChainStep(fat, cs, k);
      for i := 0 to SlotsPer(volume)
        modifies {}
        invariant Start(k, per) + i <= FirstUsable(es)
      {
        SlotOf(fat, slots, cs, k, i, per);
        UsableStep(es, Start(k, per) + i);
        if Usable(volume.slots[c][i]) {
          return Place(c, i), cs;
        }
      }
      StartNext(k, per);
      NextInChain(fat, cs, k);
      var next := volume.NextCluster(c);
      k := k + 1;
      if next == END_OF_CHAIN {
        break;
      }
      c := next;
    }
    assert volume.fat[..] == fat && volume.slots[..] == slots;
    UsableStep(es, |es|);
    NewCluster(fat, cs);
    c := volume.ExtendCluster(c, 1, cs);
    cs' := cs + FirstFree(fat, 2, 1);
    volume.slots[c] := Unused(SlotsPer(volume));
    place := Place(c, 0);
  }

  lemma NextInChain(fat: seq<nat>, cs: seq<nat>, k: nat)
    requires |fat| <= MAX_CLUSTERS && IsChain(fat, cs) && k < |cs|
    ensures cs[k] < |fat| && cs[k] in cs
    ensures var next := if IsEnd(fat[cs[k]]) then END_OF_CHAIN else fat[cs[k]];
      if k + 1 < |cs| then next == cs[k + 1] != END_OF_CHAIN else next == END_OF_CHAIN
  {
    ChainStep(fat, cs, k);
    if k + 1 < |cs| {
      ChainStep(fat, cs, k + 1);
    }
  }

  lemma NewCluster(fat: seq<nat>, cs: seq<nat>)
    requires |fat| <= MAX_CLUSTERS && IsChain(fat, cs) && FreeCount(fat, 2) >= 1
    ensures FirstFree(fat, 2, 1)[0] < |fat| && FirstFree(fat, 2, 1)[0] !in cs && fat[FirstFree(fat, 2, 1)[0]] == 0
  {
    ExtendChain(fat, cs, 1);
    assert FirstFree(fat, 2, 1)[0] in FirstFree(fat, 2, 1);
  }

  /** One slot of a chain is overwritten. */
  lemma PutInPlace(fat: seq<nat>, slots: seq<seq<DirEntry>>, cs: seq<nat>, i: nat, place: Place, e: DirEntry, per: nat)
    requires IsChain(fat, cs) && |slots| == |fat| && Sized(slots, per) && Locates(cs, i, place, per)
    ensures place.cluster in cs && place.cluster < |slots| && place.index < |slots[place.cluster]|
    ensures i < |Flat(slots, cs)|
    ensures var slots' := slots[place.cluster := slots[place.cluster][place.index := e]];
      Flat(slots', cs) == Flat(slots, cs)[i := e] && Sized(slots', per)
  {
    var k: nat :| k < |cs| && place.cluster == cs[k] && place.index < per && i == Start(k, per) + place.index;
    WriteChunk(slots, cs, k, place.index, [e], per);
    PatchOne(slots[cs[k]], place.index, e);
    PatchOne(Flat(slots, cs), i, e);
  }

  lemma PatchOne(es: seq<DirEntry>, i: nat, e: DirEntry)
    requires i < |es|
    ensures Patched(es, i, [e]) == es[i := e]
  {}

  /** A cluster with the entry and unused slots is added to a chain. */
  lemma PutInNew(fat: seq<nat>, slots: seq<seq<DirEntry>>, cs: seq<nat>, e: DirEntry, per: nat)
    requires |fat| <= MAX_CLUSTERS && IsChain(fat, cs) && FreeCount(fat, 2) >= 1 && |slots| == |fat|
    requires Sized(slots, per)
    ensures var c := FirstFree(fat, 2, 1)[0];
      && c < |slots| && c !in cs
      && var slots' := slots[c := Unused(per)[0 := e]];
         Flat(slots', cs + FirstFree(fat, 2, 1)) == Flat(slots, cs) + [e] + Unused(per - 1) && Sized(slots', per)
  {
    hide Flat;
    var picks := FirstFree(fat, 2, 1);
    var c := picks[0];
    NewCluster(fat, cs);
    var slots' := slots[c := Unused(per)[0 := e]];
    FlatSame(slots, slots', cs);
    FlatJoin(slots', cs, picks);
    FlatOne(slots', c);
    assert picks == [c];
    assert Unused(per)[0 := e] == [e] + Unused(per - 1);
  }

  lemma FlatOne(slots: seq<seq<DirEntry>>, c: nat)
    requires c < |slots|
    ensures Flat(slots, [c]) == slots[c]
  {
    assert [c][..0] == [];
  }

  /** The other directories are as before, and all of them are in order again. */
  lemma DirectoriesAfter(fat: seq<nat>, slots: seq<seq<DirEntry>>, dirs: map<nat, seq<nat>>, root: nat,
                         fat': seq<nat>, slots': seq<seq<DirEntry>>, c: nat, cs': seq<nat>, changed: nat, e: DirEntry, extra: nat)
    requires Directories(fat, slots, dirs, root) && c in dirs && extra > 0 && FirstByte(e) != 0 && e.attr != DIRECTORY
    requires |slots'| == |slots| && IsChain(fat', cs') && cs'[0] == c && changed in cs'
    requires forall x :: 0 <= x < |slots| && x != changed ==> slots'[x] == slots[x]
    requires forall d :: d in dirs && d != c ==> IsChain(fat', dirs[d]) && Disjoint(dirs[d], cs')
    requires Flat(slots', cs') == Inserted(Flat(slots, dirs[c]), FirstUsable(Flat(slots, dirs[c])), e, extra)
    ensures Creates(slots, dirs, slots', dirs[c := cs'], c, e, extra)
    ensures Directories(fat', slots', dirs[c := cs'], root)
  {
    hide Flat, FirstUsable, Inserted, IsChain;
    var dirs', es := dirs[c := cs'], Flat(slots, dirs[c]);
    assert dirs'.Keys == dirs.Keys + {c};
    InsertKeepsTail(es, e, extra);
    forall d | d in dirs && d != c
      ensures Flat(slots', dirs'[d]) == Flat(slots, dirs[d])
    {
      assert changed !in dirs[d];
      FlatSame(slots, slots', dirs[d]);
    }
    forall d, i: nat {:trigger Flat(slots', dirs'[d])[i]} | d in dirs' && i < |Flat(slots', dirs'[d])|
      ensures LeadsOn(Flat(slots', dirs'[d])[i], dirs')
    {
      if d == c {
        InsertedFrom(es, e, extra, i);
        if i < |es| && i != FirstUsable(es) {
          assert LeadsOn(es[i], dirs);
        }
      } else {
        assert LeadsOn(Flat(slots, dirs[d])[i], dirs);
      }
    }
  }

  lemma InsertedFrom(es: seq<DirEntry>, e: DirEntry, extra: nat, i: nat)
    requires extra > 0 && i < |Inserted(es, FirstUsable(es), e, extra)|
    ensures var x := Inserted(es, FirstUsable(es), e, extra)[i];
      if i == FirstUsable(es) then x == e else if i < |es| then x == es[i] else x == EMPTY_ENTRY
  {}

  datatype CreateResult = Created(place: Place) | IsDirectory | NoSuchEntry

  lemma TakenIsThere(fat: seq<nat>, slots: seq<seq<DirEntry>>, cs: seq<nat>,
                     fat': seq<nat>, slots': seq<seq<DirEntry>>, cs': seq<nat>, place: Place, per: nat)
    requires SlotTaken(fat, slots, cs, fat', slots', cs', place, per) && |fat| <= MAX_CLUSTERS
    ensures |slots'| == |slots| && Sized(slots', per)
    ensures place.cluster < |slots'| && place.index < |slots'[place.cluster]|
  {
    var es := Flat(slots, cs);
    if FirstUsable(es) < |es| {
      PutInPlace(fat, slots, cs, FirstUsable(es), place, EMPTY_ENTRY, per);
    }
  }

  /** A chain read as a directory gets a new entry, at `place`. */
  ghost predicate EntryPut(fat: seq<nat>, slots: seq<seq<DirEntry>>, cs: seq<nat>, fat': seq<nat>, slots': seq<seq<DirEntry>>,
                           cs': seq<nat>, place: Place, e: DirEntry, per: nat) {
    && per > 0 && cs <= cs' && Flat(slots', cs') == Inserted(Flat(slots, cs), FirstUsable(Flat(slots, cs)), e, per)
    && Locates(cs', FirstUsable(Flat(slots, cs)), place, per)
    && |slots'| == |slots| && (forall x :: 0 <= x < |slots| && x != place.cluster ==> slots'[x] == slots[x])
  }

  /** Putting an entry into the slot that was taken. */
  lemma EntryInChain(fat: seq<nat>, slots: seq<seq<DirEntry>>, cs: seq<nat>, fat': seq<nat>, slots1: seq<seq<DirEntry>>,
                     cs': seq<nat>, data: seq<seq<Byte>>, place: Place, e: DirEntry, per: nat)
    requires |fat| <= MAX_CLUSTERS && SlotTaken(fat, slots, cs, fat', slots1, cs', place, per) && per > 0
    requires place.cluster < |slots1| && place.index < |slots1[place.cluster]|
    ensures var slots' := slots1[place.cluster := slots1[place.cluster][place.index := e]];
      && EntryPut(fat, slots, cs, fat', slots', cs', place, e, per)
      && OthersKept(fat, data, cs, fat', data, cs')
  {
    hide Flat, FirstUsable, IsPath, IsEnd, FirstFree, FreeCount, Extended, OthersKept, TailUnused;
    var es := Flat(slots, cs);
    var slots' := slots1[place.cluster := slots1[place.cluster][place.index := e]];
    if FirstUsable(es) < |es| {
      PutInPlace(fat, slots, cs, FirstUsable(es), place, e, per);
      OthersKeptSame(fat, data, cs);
    } else {
      PutInNew(fat, slots, cs, e, per);
      ExtendChain(fat, cs, 1);
      ExtendKeepsOthers(fat, data, cs, 1);
      ChainSlots(fat, slots, cs, per);
      assert Locates(cs', Start(|cs|, per) + 0, place, per);
      assert place.cluster == cs'[|cs|];
      assert slots' == slots[place.cluster := Unused(per)[0 := e]];
    }
  }

  /** In the chain of directory `c` that creates a file there. */
  lemma EntryWasPut(fat: seq<nat>, slots: seq<seq<DirEntry>>, dirs: map<nat, seq<nat>>, root: nat, c: nat, fat': seq<nat>,
                    slots1: seq<seq<DirEntry>>, cs': seq<nat>, data: seq<seq<Byte>>, place: Place, e: DirEntry, per: nat)
    requires Directories(fat, slots, dirs, root) && c in dirs && |fat| <= MAX_CLUSTERS && FirstByte(e) != 0
    requires e.attr != DIRECTORY && per > 0
    requires SlotTaken(fat, slots, dirs[c], fat', slots1, cs', place, per)
    requires place.cluster < |slots1| && place.index < |slots1[place.cluster]|
    ensures var slots' := slots1[place.cluster := slots1[place.cluster][place.index := e]];
      && Directories(fat', slots', dirs[c := cs'], root)
      && Creates(slots, dirs, slots', dirs[c := cs'], c, e, per)
  {
    hide Flat, FirstUsable, IsPath, IsEnd, FirstFree, FreeCount, Extended, Creates, OthersKept, LeadsOn, TailUnused;
    var cs, es := dirs[c], Flat(slots, dirs[c]);
    var slots' := slots1[place.cluster := slots1[place.cluster][place.index := e]];
    EntryInChain(fat, slots, cs, fat', slots1, cs', data, place, e, per);
    if FirstUsable(es) < |es| {
      PutInPlace(fat, slots, cs, FirstUsable(es), place, e, per);
    } else {
      PutInNew(fat, slots, cs, e, per);
      ExtendChain(fat, cs, 1);
      assert place.cluster == cs'[|cs|];
    }
    DirectoriesAfter(fat, slots, dirs, root, fat', slots', c, cs', place.cluster, e, per);
  }

  /** The entry of a file that has nothing yet. */
  predicate IsNewFile(e: DirEntry, file: seq<Byte>) {
    e.FirstCluster() == 0 && e.fileSize == 0 && e.attr == 0 && e.name == StoredForm(file, LastOf(file, DOT))
  }

  lemma NewEntryIsEmpty(file: seq<Byte>)
    ensures IsNewFile(NewEntry(file), file)
  {}

  /** Taking a slot takes at most one cluster. */
  lemma TakenFree(fat: seq<nat>, slots: seq<seq<DirEntry>>, cs: seq<nat>,
                  fat': seq<nat>, slots': seq<seq<DirEntry>>, cs': seq<nat>, place: Place, per: nat)
    requires SlotTaken(fat, slots, cs, fat', slots', cs', place, per) && |fat| <= MAX_CLUSTERS
    ensures FreeCount(fat', 2) + 1 >= FreeCount(fat, 2)
  {
    hide Flat, FirstUsable, IsPath, IsEnd, FirstFree, FreeCount, Extended;
    ExtendChain(fat, cs, 1);
  }

  /** The new entry is made in a chain: of a directory, or of whatever the path named. */
  method PutEntry(volume: Volume, c: nat, file: seq<Byte>, ghost cs: seq<nat>, ghost dirs: map<nat, seq<nat>>)
    returns (place: Place, ghost cs': seq<nat>)
    requires Mounted(volume, dirs) && PlainPath(file) && NoSlash(file) && FreeCount(volume.fat[..], 2) >= 1
    requires IsChain(volume.fat[..], cs) && c == cs[0] && (c in dirs ==> cs == dirs[c])
    modifies volume.fat, volume.slots
    ensures volume.Valid()
    ensures c in dirs ==>
      && Mounted(volume, dirs[c := cs'])
      && Creates(old(volume.slots[..]), dirs, volume.slots[..], dirs[c := cs'], c, NewEntry(file), SlotsPer(volume))
    ensures EntryPut(old(volume.fat[..]), old(volume.slots[..]), cs, volume.fat[..], volume.slots[..], cs', place,
                     NewEntry(file), SlotsPer(volume))
    ensures OthersKept(old(volume.fat[..]), volume.data[..], cs, volume.fat[..], volume.data[..], cs')
    ensures place.cluster < volume.slots.Length && place.index < |volume.slots[place.cluster]|
    ensures IsNewFile(volume.slots[place.cluster][place.index], file)
    ensures FreeCount(volume.fat[..], 2) + 1 >= old(FreeCount(volume.fat[..], 2))
  {
    hide Flat, Start, IsChain, FirstUsable, Usable, Locates, FirstFree, FreeCount, Extended, Inserted, Creates, OthersKept;
    hide StoredForm, LeadsOn, EntryPut, IsNewFile;
    ghost var fat0, slots0, per := volume.fat[..], volume.slots[..], SlotsPer(volume);
    place, cs' := AllocateEntry(volume, c, cs);
    ghost var slots1 := volume.slots[..];
    TakenIsThere(fat0, slots0, cs, volume.fat[..], slots1, cs', place, per);
    TakenFree(fat0, slots0, cs, volume.fat[..], slots1, cs', place, per);
    NewEntryIsEmpty(file);
    var entry := SetFileName(EMPTY_ENTRY, file);
    NewEntryIs(file);
    volume.slots[place.cluster] := volume.slots[place.cluster][place.index := entry];
    EntryInChain(fat0, slots0, cs, volume.fat[..], slots1, cs', volume.data[..], place, NewEntry(file), per);
    if c in dirs {
      EntryWasPut(fat0, slots0, dirs, volume.rootCluster, c, volume.fat[..], slots1, cs', volume.data[..], place, NewEntry(file), per);
    }
  }

  /** Makes an entry for a new, empty file in the directory that the path names. If the path names a file instead of a
      directory, the clusters of that file, `files`, are taken for those of a directory. */
  method CreateFile(volume: Volume, path: seq<Byte>, ghost dirs: map<nat, seq<nat>>, ghost files: map<nat, seq<nat>>)
    returns (r: CreateResult, ghost cs': seq<nat>)
    requires Mounted(volume, dirs) && PlainPath(path) && path != [] && FreeCount(volume.fat[..], 2) >= 1
    requires forall c :: c in files ==> IsChain(volume.fat[..], files[c]) && files[c][0] == c
    requires var d := ParentDir(volume.slots[..], dirs, volume.rootCluster, path); d.Some? ==> d.value in dirs || d.value in files
    modifies volume.fat, volume.slots
    ensures r.IsDirectory? <==> path[|path| - 1] == SLASH
    ensures r.NoSuchEntry? <==>
      !r.IsDirectory? && ParentDir(old(volume.slots[..]), dirs, volume.rootCluster, path).None?
    ensures !r.Created? ==> volume.fat[..] == old(volume.fat[..]) && volume.slots[..] == old(volume.slots[..])
    ensures r.Created? ==>
      var c := ParentDir(old(volume.slots[..]), dirs, volume.rootCluster, path).value;
      var cs := if c in dirs then dirs[c] else files[c];
      && EntryPut(old(volume.fat[..]), old(volume.slots[..]), cs, volume.fat[..], volume.slots[..], cs', r.place,
                  NewEntry(FileOf(path)), SlotsPer(volume))
      && OthersKept(old(volume.fat[..]), volume.data[..], cs, volume.fat[..], volume.data[..], cs')
    ensures r.Created? ==>
      && r.place.cluster < volume.slots.Length && r.place.index < |volume.slots[r.place.cluster]|
      && IsNewFile(volume.slots[r.place.cluster][r.place.index], FileOf(path))
      && FreeCount(volume.fat[..], 2) + 1 >= old(FreeCount(volume.fat[..], 2))
    ensures r.Created? ==>
      var c := ParentDir(old(volume.slots[..]), dirs, volume.rootCluster, path).value;
      c in dirs ==>
        && Mounted(volume, dirs[c := cs'])
        && Creates(old(volume.slots[..]), dirs, volume.slots[..], dirs[c := cs'], c, NewEntry(FileOf(path)), SlotsPer(volume))
  {
    hide Flat, IsChain, FirstUsable, FreeCount, Creates, OthersKept, EntryPut, Directories, ParentDir, NewEntry, FileOf, LastOf;
    hide PlainPath, NoSlash, SlotsPer, IsNewFile;
    cs' := [];
    var slashPos := StrRChr(path, SLASH);
    if slashPos == |path| - 1 {
      return IsDirectory, [];
    }
    var parentCluster := ParentCluster(volume, path, slashPos, dirs);
    if parentCluster.None? {
      return NoSuchEntry, [];
    }
    ghost var c := parentCluster.value;
    RootIsDirectory(volume, dirs);
    ghost var cs := if c in dirs then dirs[c] else files[c];
    LastPart(path);
    var place;
    place, cs' := PutEntry(volume, parentCluster.value, FileOf(path), cs, dirs);
    r := Created(place);
  }

  /** The cluster of the directory part of a path. */
  method ParentCluster(volume: Volume, path: seq<Byte>, slashPos: int, ghost dirs: map<nat, seq<nat>>) returns (cluster: Option<nat>)
    requires Mounted(volume, dirs) && PlainPath(path) && slashPos == LastOf(path, SLASH)
    ensures cluster == ParentDir(volume.slots[..], dirs, volume.rootCluster, path)
  {
    hide Flat, LastOf, Lookup, Directories, Locates;
    cluster := Some(volume.rootCluster);
    if slashPos >= 0 {
      var parentName := path[..slashPos];
      if parentName != [] {
        PlainPrefix(path, slashPos);
        var parent, postSlash, spot := FindFile(volume, parentName, 0, dirs);
        if parent.None? {
          return None;
        }
        cluster := Some(volume.slots[parent.value.cluster][parent.value.index].FirstCluster());
      }
    }
  }

  lemma RootIsDirectory(volume: Volume, dirs: map<nat, seq<nat>>)
    requires Mounted(volume, dirs)
    ensures forall c :: c in dirs ==> dirs[c] != [] && dirs[c][0] == c && IsChain(volume.fat[..], dirs[c])
  {}

  lemma LastPart(path: seq<Byte>)
    requires PlainPath(path) && path != [] && LastOf(path, SLASH) != |path| - 1
    ensures PlainPath(FileOf(path)) && NoSlash(FileOf(path)) && path[|path| - 1] != SLASH
  {
    PathParts(path);
  }
}
