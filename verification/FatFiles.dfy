/** From a path to the bytes of a file: creating it, writing it, and finding it again (kernel/fat.cpp, `CreateFile`,
    `FindFile` and `FileDescriptor`). */
module FatFiles {
  import opened Basics
  import opened FatChains
  import opened FatVolume
  import opened FatContents
  import opened FatNames
  import opened FatDirectory
  import opened FatPaths
  import FatDescriptor
  import FatRoundTrip

  /** Two entries that a search does not tell apart, and that lead to the same directory if to any. */
  predicate Alike(e: DirEntry, e': DirEntry) {
    e'.name == e.name && e'.attr == e.attr && (e.attr == DIRECTORY ==> e'.FirstCluster() == e.FirstCluster())
  }

  ghost predicate AllAlike(es: seq<DirEntry>, es': seq<DirEntry>) {
    |es'| == |es| && forall i :: 0 <= i < |es| ==> Alike(es[i], es'[i])
  }

  /** The directories consist of entries that are alike. */
  ghost predicate DirsAlike(slots: seq<seq<DirEntry>>, slots': seq<seq<DirEntry>>, dirs: map<nat, seq<nat>>) {
    forall d :: d in dirs ==> AllAlike(Flat(slots, dirs[d]), Flat(slots', dirs[d]))
  }

  lemma {:induction false} SameLookup(es: seq<DirEntry>, es': seq<DirEntry>, name: seq<Byte>, i: nat)
    requires AllAlike(es, es')
    ensures LookupFrom(es', name, i) == LookupFrom(es, name, i)
    decreases |es| - i
  {
    if i < |es| {
      assert Alike(es[i], es'[i]);
      SameLookup(es, es', name, i + 1);
    }
  }

  lemma {:induction false} SameResolve(slots: seq<seq<DirEntry>>, slots': seq<seq<DirEntry>>, dirs: map<nat, seq<nat>>, root: nat,
                                       path: seq<Byte>, start: nat)
    requires DirsAlike(slots, slots', dirs)
    ensures Resolve(slots', dirs, root, path, start) == Resolve(slots, dirs, root, path, start)
    decreases |path|
  {
    hide Flat, SearchForm, LookupFrom, Element, Rest, PostSlash, StartOf;
    var c := StartOf(path, start, root);
    if c in dirs {
      var es, es' := Flat(slots, dirs[c]), Flat(slots', dirs[c]);
      SameLookup(es, es', SearchForm(Element(path)), 0);
      match Lookup(es, SearchForm(Element(path)))
      case None => {}
      case Some(i) =>
        assert Alike(es[i], es'[i]);
        if es[i].attr == DIRECTORY && Rest(path) != [] {
          SameResolve(slots, slots', dirs, root, Rest(path), es[i].FirstCluster());
        }
    }
  }

  /** Changing size and first cluster of a file's entry leaves the directories alike. */
  lemma EntryChanged(fat: seq<nat>, slots: seq<seq<DirEntry>>, slots': seq<seq<DirEntry>>, dirs: map<nat, seq<nat>>, root: nat,
                     c: nat, i: nat, place: Place, e: DirEntry, per: nat)
    requires Directories(fat, slots, dirs, root) && c in dirs && |slots| == |fat| && Sized(slots, per)
    requires Locates(dirs[c], i, place, per) && place.cluster < |slots| && place.index < |slots[place.cluster]|
    requires slots' == slots[place.cluster := slots[place.cluster][place.index := e]]
    requires e.name == slots[place.cluster][place.index].name && e.attr == slots[place.cluster][place.index].attr != DIRECTORY
    ensures DirsAlike(slots, slots', dirs)
  {
    hide Flat, Locates, IsPath, IsEnd, LeadsOn, TailUnused;
    PutInPlace(fat, slots, dirs[c], i, place, e, per);
    PlaceHolds(fat, slots, dirs[c], i, place, per);
    forall d | d in dirs
      ensures AllAlike(Flat(slots, dirs[d]), Flat(slots', dirs[d]))
    {
      if d != c {
        assert place.cluster !in dirs[d];
        FlatSame(slots, slots', dirs[d]);
      }
    }
  }

  lemma PlaceHolds(fat: seq<nat>, slots: seq<seq<DirEntry>>, cs: seq<nat>, i: nat, place: Place, per: nat)
    requires IsChain(fat, cs) && |slots| == |fat| && Sized(slots, per) && Locates(cs, i, place, per)
    ensures place.cluster < |slots| && place.index < |slots[place.cluster]|
    ensures i < |Flat(slots, cs)| && Flat(slots, cs)[i] == slots[place.cluster][place.index]
  {
    var k: nat :| k < |cs| && place.cluster == cs[k] && place.index < per && i == Start(k, per) + place.index;
    SlotOf(fat, slots, cs, k, place.index, per);
  }

  /** A number of an entry has one place. */
  lemma OnePlace(cs: seq<nat>, i: nat, place: Place, place': Place, per: nat)
    requires Locates(cs, i, place, per) && Locates(cs, i, place', per)
    ensures place == place'
  {
    var k: nat :| k < |cs| && place.cluster == cs[k] && place.index < per && i == Start(k, per) + place.index;
    var m: nat :| m < |cs| && place'.cluster == cs[m] && place'.index < per && i == Start(m, per) + place'.index;
    if k < m {
      StartGrows(k + 1, m, per);
      StartNext(k, per);
    } else if m < k {
      StartGrows(m + 1, k, per);
      StartNext(m, per);
    }
  }

  /** Directories stay directories when their chains are kept and their entries alike. */
  lemma StillDirectories(fat: seq<nat>, fat': seq<nat>, slots: seq<seq<DirEntry>>, slots': seq<seq<DirEntry>>,
                         dirs: map<nat, seq<nat>>, root: nat)
    requires Directories(fat, slots, dirs, root) && DirsAlike(slots, slots', dirs)
    requires forall d :: d in dirs ==> IsChain(fat', dirs[d])
    ensures Directories(fat', slots', dirs, root)
  {
    hide Flat, IsChain;
    forall d | d in dirs
      ensures TailUnused(Flat(slots', dirs[d]))
    {
      var es, es' := Flat(slots, dirs[d]), Flat(slots', dirs[d]);
      forall i, j | 0 <= i < j < |es'| && FirstByte(es'[i]) == 0
        ensures FirstByte(es'[j]) == 0
      {
        assert Alike(es[i], es'[i]) && Alike(es[j], es'[j]);
      }
    }
    forall d, i: nat {:trigger Flat(slots', dirs[d])[i]} | d in dirs && i < |Flat(slots', dirs[d])|
      ensures LeadsOn(Flat(slots', dirs[d])[i], dirs)
    {
      assert AllAlike(Flat(slots, dirs[d]), Flat(slots', dirs[d]));
      assert Alike(Flat(slots, dirs[d])[i], Flat(slots', dirs[d])[i]);
      assert LeadsOn(Flat(slots, dirs[d])[i], dirs);
    }
  }

  /** The directory in which a path's file can be created, and found again by the same path: the name is not taken, in
      either form, is looked for as it is stored, and is looked for there. */
  ghost predicate Creatable(slots: seq<seq<DirEntry>>, dirs: map<nat, seq<nat>>, root: nat, path: seq<Byte>, c: nat) {
    && c in dirs && c != 0 && FileOf(path) != [] && ParentDir(slots, dirs, root, path) == Some(c)
    && Lookup(Flat(slots, dirs[c]), SearchForm(FileOf(path))).None?
    && Lookup(Flat(slots, dirs[c]), NewEntry(FileOf(path)).name).None?
    && Findable(FileOf(path)) && SoughtThere(slots, dirs, root, path)
  }

  /** Where the new entry is. */
  lemma CreatedPlace(fat: seq<nat>, slots: seq<seq<DirEntry>>, dirs: map<nat, seq<nat>>, fat': seq<nat>, slots': seq<seq<DirEntry>>,
                     cs': seq<nat>, root: nat, path: seq<Byte>, c: nat, place: Place, per: nat)
    requires PlainPath(path) && root in dirs && root != 0 && Creatable(slots, dirs, root, path, c)
    requires EntryPut(fat, slots, dirs[c], fat', slots', cs', place, NewEntry(FileOf(path)), per)
    requires Creates(slots, dirs, slots', dirs[c := cs'], c, NewEntry(FileOf(path)), per)
    ensures var i := FirstUsable(Flat(slots, dirs[c]));
      && Resolve(slots', dirs[c := cs'], root, path, 0).0 == Some(Spot(c, i)) && Locates(cs', i, place, per)
  {
    hide Lookup, Flat, SearchForm, Creates, FirstUsable, Findable, SoughtThere, ParentDir, NewEntry, Resolve, Inserted;
    CreateThenFind(slots, dirs, slots', dirs[c := cs'], root, path, c, per);
  }

  lemma PathHasFile(path: seq<Byte>)
    requires FileOf(path) != []
    ensures path != [] && path[|path| - 1] != SLASH
  {}

  /** Creates a file by its path, writes to it through a descriptor at the new entry, and reads through another one at
      the place to which the path leads then: what is read is what was written. */
  method CreateWriteRead(volume: Volume, path: seq<Byte>, chunks: seq<seq<Byte>>, sizes: seq<nat>, ghost dirs: map<nat, seq<nat>>, ghost c: nat)
    returns (out: seq<Byte>, place: Place, ghost dirs': map<nat, seq<nat>>, ghost cs: seq<nat>)
    requires Mounted(volume, dirs) && PlainPath(path) && Creatable(volume.slots[..], dirs, volume.rootCluster, path, c)
    requires forall i :: 1 <= i < |chunks| ==> |chunks[i]| <= volume.bytesPerCluster
    requires |FatRoundTrip.Concat(chunks)| < 0x1_0000_0000
    requires FreeCount(volume.fat[..], 2) >= 1 + FatRoundTrip.Enough(chunks, volume.bytesPerCluster)
    modifies volume.fat, volume.data, volume.slots
    ensures var all := FatRoundTrip.Concat(chunks);
      out == all[..FatDescriptor.Min(FatRoundTrip.Sum(sizes), |all|)]
    ensures Mounted(volume, dirs') && dirs'.Keys == dirs.Keys
    ensures var s := Resolve(volume.slots[..], dirs', volume.rootCluster, path, 0).0;
      s.Some? && s.value.dir == c && Locates(dirs'[c], s.value.index, place, SlotsPer(volume))
    ensures place.cluster < volume.slots.Length && place.index < |volume.slots[place.cluster]|
    ensures var e := volume.slots[place.cluster][place.index];
      && e.fileSize == |FatRoundTrip.Concat(chunks)| && e.attr == 0
      && e.name == StoredForm(FileOf(path), LastOf(FileOf(path), DOT))
      && (if cs == [] then e.FirstCluster() == 0 else IsChain(volume.fat[..], cs) && e.FirstCluster() == cs[0])
    ensures forall d :: d in dirs' ==> Disjoint(dirs'[d], cs)
  {
    hide Flat, IsPath, IsEnd, FreeCount, FirstUsable, Creates, OthersKept, EntryPut, Directories, ParentDir, NewEntry, FileOf, LastOf;
    hide PlainPath, Locates, IsNewFile, Creatable, Resolve, FatRoundTrip.Concat, FatRoundTrip.Enough, StoredForm, DirsAlike;
    ghost var fat0, slots0, root, per := volume.fat[..], volume.slots[..], volume.rootCluster, SlotsPer(volume);
    CreatableMeans(volume, path, dirs, c);
    var r;
    ghost var cs';
    r, cs' := CreateFile(volume, path, dirs, map[]);
    dirs' := dirs[c := cs'];
    CreatedPlace(fat0, slots0, dirs, volume.fat[..], volume.slots[..], cs', root, path, c, r.place, per);
    ghost var fat1, data1, slots1 := volume.fat[..], volume.data[..], volume.slots[..];
    NewFileIsEmpty(slots1[r.place.cluster][r.place.index], FileOf(path), volume.bytesPerCluster);
    var writer := new FatDescriptor.FileDescriptor(volume, r.place.cluster, r.place.index);
    cs := FatRoundTrip.WriteAll(writer, chunks);
    ghost var e := volume.slots[r.place.cluster][r.place.index];
    assert volume.slots[..] == slots1[r.place.cluster := slots1[r.place.cluster][r.place.index := e]];
    AfterWriting(volume, fat1, data1, slots1, dirs', c, FirstUsable(Flat(slots0, dirs[c])), r.place, e, cs);
    SameResolve(slots1, volume.slots[..], dirs', root, path, 0);
    var found, postSlash;
    ghost var spot;
    found, postSlash, spot := FindFile(volume, path, 0, dirs');
    OnePlace(dirs'[c], spot.value.index, found.value, r.place, per);
    place := found.value;
    var reader := new FatDescriptor.FileDescriptor(volume, place.cluster, place.index);
    out := FatRoundTrip.ReadAll(reader, sizes, cs);
  }

  lemma CreatableMeans(volume: Volume, path: seq<Byte>, dirs: map<nat, seq<nat>>, c: nat)
    requires Mounted(volume, dirs) && Creatable(volume.slots[..], dirs, volume.rootCluster, path, c)
    ensures c in dirs && ParentDir(volume.slots[..], dirs, volume.rootCluster, path) == Some(c)
    ensures path != [] && path[|path| - 1] != SLASH
    ensures volume.rootCluster in dirs && volume.rootCluster != 0
  {
    PathHasFile(path);
  }

  lemma NewFileIsEmpty(e: DirEntry, file: seq<Byte>, size: nat)
    requires IsNewFile(e, file)
    ensures e.FirstCluster() == 0 && e.fileSize == 0 && e.attr == 0 != DIRECTORY && Start(0, size) == 0
    ensures e.name == StoredForm(file, LastOf(file, DOT))
  {
    StartNext(0, size);
  }

  /** Writing to the new file leaves the directories as they are. */
  lemma AfterWriting(volume: Volume, fat: seq<nat>, data: seq<seq<Byte>>, slots: seq<seq<DirEntry>>, dirs: map<nat, seq<nat>>,
                     c: nat, i: nat, place: Place, e: DirEntry, cs: seq<nat>)
    requires volume.Valid() && Directories(fat, slots, dirs, volume.rootCluster) && c in dirs
    requires |fat| == volume.fat.Length && |slots| == |fat| && Sized(slots, SlotsPer(volume))
    requires Locates(dirs[c], i, place, SlotsPer(volume)) && place.cluster < |slots| && place.index < |slots[place.cluster]|
    requires volume.slots[..] == slots[place.cluster := slots[place.cluster][place.index := e]]
    requires e.name == slots[place.cluster][place.index].name && e.attr == slots[place.cluster][place.index].attr != DIRECTORY
    requires OthersKept(fat, data, [], volume.fat[..], volume.data[..], cs)
    ensures Mounted(volume, dirs) && DirsAlike(slots, volume.slots[..], dirs)
    ensures forall d :: d in dirs ==> Disjoint(dirs[d], cs)
  {
    hide Flat, IsPath, IsEnd, Locates, LeadsOn, TailUnused, DirsAlike;
    EntryChanged(fat, slots, volume.slots[..], dirs, volume.rootCluster, c, i, place, e, SlotsPer(volume));
    forall d | d in dirs
      ensures IsChain(volume.fat[..], dirs[d]) && Disjoint(dirs[d], cs)
    {
      assert IsChain(fat, dirs[d]) && Disjoint(dirs[d], []);
    }
    StillDirectories(fat, volume.fat[..], slots, volume.slots[..], dirs, volume.rootCluster);
  }
}
