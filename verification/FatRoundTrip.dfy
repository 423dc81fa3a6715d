/** Whole runs of writes and reads on one file. */
module FatRoundTrip {
  import opened Basics
  import opened FatChains
  import opened FatVolume
  import opened FatContents
  import opened FatFile
  import opened FatDescriptor

  function Concat(chunks: seq<seq<Byte>>): seq<Byte> {
    if chunks == [] then [] else Concat(chunks[..|chunks| - 1]) + chunks[|chunks| - 1]
  }

  function Sum(sizes: seq<nat>): nat {
    if sizes == [] then 0 else Sum(sizes[..|sizes| - 1]) + sizes[|sizes| - 1]
  }

  lemma {:induction false} ConcatGrows(chunks: seq<seq<Byte>>, i: nat)
    requires i <= |chunks|
    ensures |Concat(chunks[..i])| <= |Concat(chunks)|
    ensures i < |chunks| ==> Concat(chunks[..i + 1]) == Concat(chunks[..i]) + chunks[i]
    decreases |chunks| - i
  {
    if i == |chunks| {
      assert chunks[..i] == chunks;
    } else {
      ConcatGrows(chunks, i + 1);
      assert chunks[..i + 1][..i] == chunks[..i];
    }
  }

  lemma SumNext(sizes: seq<nat>, i: nat)
    requires i < |sizes|
    ensures Sum(sizes[..i + 1]) == Sum(sizes[..i]) + sizes[i]
  {
    assert sizes[..i + 1][..i] == sizes[..i];
  }

  /** A write of at most one cluster takes at most one free cluster. */
  lemma SmallDemand(room: int, len: nat, size: nat)
    requires room >= 0 && len <= size && size > 0
    ensures Needed(room, len, size) <= 1
  {
    if len > room {
      CeilDivIs(len - room, size);
    }
  }

  /** Free clusters that are enough for the writes: the first one takes what its length needs, every later one
      at most one cluster. */
  function Enough(chunks: seq<seq<Byte>>, size: nat): nat
    requires size > 0
  {
    if chunks == [] then 0 else FirstDemand(|chunks[0]|, size) + |chunks| - 1
  }

  /** Writes the chunks one after the other to a file that has no cluster yet. */
  method WriteAll(fd: FileDescriptor, chunks: seq<seq<Byte>>) returns (ghost cs: seq<nat>)
    requires fd.Mounted() && fd.Has([]) && fd.Entry().fileSize == 0 && fd.Writer([], 0) && fd.wrCluster == 0
    requires forall i :: 1 <= i < |chunks| ==> |chunks[i]| <= fd.volume.bytesPerCluster
    requires |Concat(chunks)| < 0x1_0000_0000
    requires FreeCount(fd.volume.fat[..], 2) >= Enough(chunks, fd.volume.bytesPerCluster)
    modifies fd`wrOff, fd`wrCluster, fd`wrClusterOff, fd.volume.fat, fd.volume.data, fd.volume.slots
    ensures fd.Mounted() && fd.Has(cs) && fd.Entry().fileSize == |Concat(chunks)| <= |Flat(fd.volume.data[..], cs)|
    ensures fd.Content(cs) == Concat(chunks)
    ensures OthersKept(old(fd.volume.fat[..]), old(fd.volume.data[..]), [], fd.volume.fat[..], fd.volume.data[..], cs)
    ensures forall c :: 0 <= c < fd.volume.slots.Length && c != fd.dirCluster ==> fd.volume.slots[c] == old(fd.volume.slots[c])
    ensures fd.volume.slots[fd.dirCluster]
      == old(fd.volume.slots[fd.dirCluster])[fd.dirIndex := fd.volume.slots[fd.dirCluster][fd.dirIndex]]
    ensures fd.Entry().name == old(fd.Entry().name) && fd.Entry().attr == old(fd.Entry().attr)
  {
    hide Flat, Start, IsPath, IsEnd, FirstFree, FreeCount, Room, Needed, OthersKept, CeilDiv, StaleBytes, WithFirst, Concat, FirstDemand;
    ghost var fat0, data0, size := fd.volume.fat[..], fd.volume.data[..], fd.volume.bytesPerCluster;
    cs := [];
    ghost var k := 0;
    StartNext(0, size);
    OthersKeptSame(fat0, data0, cs);
    NothingWritten(data0, chunks);
    for i := 0 to |chunks|
      invariant fd.Mounted() && fd.Has(cs) && fd.Writer(cs, k) && (cs == [] <==> i == 0)
      invariant fd.wrOff == fd.Entry().fileSize == |Concat(chunks[..i])| <= |Flat(fd.volume.data[..], cs)|
      invariant fd.Content(cs) == Concat(chunks[..i])
      invariant FreeCount(fd.volume.fat[..], 2) >= if i == 0 then Enough(chunks, size) else |chunks| - i
      invariant OthersKept(fat0, data0, [], fd.volume.fat[..], fd.volume.data[..], cs)
      invariant forall c :: 0 <= c < fd.volume.slots.Length && c != fd.dirCluster ==> fd.volume.slots[c] == old(fd.volume.slots[c])
      invariant fd.volume.slots[fd.dirCluster]
        == old(fd.volume.slots[fd.dirCluster])[fd.dirIndex := fd.volume.slots[fd.dirCluster][fd.dirIndex]]
      invariant fd.Entry().name == old(fd.Entry().name) && fd.Entry().attr == old(fd.Entry().attr)
    {
      ghost var fat1, data1, cs1 := fd.volume.fat[..], fd.volume.data[..], cs;
      ConcatGrows(chunks, i);
      ConcatGrows(chunks, i + 1);
      fd.WriterFits(cs, k);
      if i > 0 {
        SmallDemand(Room(|cs|, k, fd.wrClusterOff, size), |chunks[i]|, size);
      }
      var total;
      ghost var entry := fd.Entry();
      total, cs, k := fd.Write(chunks[i], cs, k);
      FirstKeepsName(entry, cs[0]);
      OthersKeptThen(fat0, data0, [], fat1, data1, cs1, fd.volume.fat[..], fd.volume.data[..], cs);
    }
    assert chunks[..|chunks|] == chunks;
  }

  lemma NothingWritten(data: seq<seq<Byte>>, chunks: seq<seq<Byte>>)
    ensures Flat(data, []) == [] && Concat(chunks[..0]) == []
  {}

  /** Reads pieces of the given sizes one after the other. */
  method ReadAll(fd: FileDescriptor, sizes: seq<nat>, ghost cs: seq<nat>) returns (out: seq<Byte>)
    requires fd.Mounted() && fd.Has(cs) && fd.Reader(cs) && fd.rdOff == 0
    modifies fd`rdOff, fd`rdCluster, fd`rdClusterOff
    ensures fd.Entry().fileSize <= |Flat(fd.volume.data[..], cs)|
    ensures out == fd.Content(cs)[..Min(Sum(sizes), fd.Entry().fileSize)]
  {
    hide Flat, Start, IsPath, IsEnd, ReadPlace;
    fd.ContentFits(cs);
    ghost var content := fd.Content(cs);
    out := [];
    for i := 0 to |sizes|
      invariant fd.Reader(cs) && fd.rdOff == Min(Sum(sizes[..i]), fd.Entry().fileSize)
      invariant out == content[..fd.rdOff]
    {
      SumNext(sizes, i);
      ghost var before := fd.rdOff;
      var buf := fd.Read(sizes[i], cs);
      assert content[..before] + content[before..fd.rdOff] == content[..fd.rdOff];
      out := out + buf;
    }
    assert sizes[..|sizes|] == sizes;
  }

  /** On an empty file, a first write of any length and any number of writes of at most one cluster each, then any
      reads through a fresh descriptor: the reads return exactly the bytes written, the size is their number, and
      every other chain keeps its clusters and its bytes. */
  method WriteThenRead(volume: Volume, dirCluster: nat, dirIndex: nat, chunks: seq<seq<Byte>>, sizes: seq<nat>)
    returns (out: seq<Byte>, ghost cs: seq<nat>)
    requires volume.Valid() && dirCluster < volume.slots.Length && dirIndex < |volume.slots[dirCluster]|
    requires volume.slots[dirCluster][dirIndex].FirstCluster() == 0 && volume.slots[dirCluster][dirIndex].fileSize == 0
    requires forall i :: 1 <= i < |chunks| ==> |chunks[i]| <= volume.bytesPerCluster
    requires |Concat(chunks)| < 0x1_0000_0000
    requires FreeCount(volume.fat[..], 2) >= Enough(chunks, volume.bytesPerCluster)
    modifies volume.fat, volume.data, volume.slots
    ensures out == Concat(chunks)[..Min(Sum(sizes), |Concat(chunks)|)]
    ensures volume.Valid() && dirIndex < |volume.slots[dirCluster]|
    ensures volume.slots[dirCluster][dirIndex].fileSize == |Concat(chunks)|
    ensures OthersKept(old(volume.fat[..]), old(volume.data[..]), [], volume.fat[..], volume.data[..], cs)
  {
    hide Flat, Start, IsPath, IsEnd, FirstFree, FreeCount, OthersKept, Concat, ReadPlace;
    StartNext(0, volume.bytesPerCluster);
    var writer := new FileDescriptor(volume, dirCluster, dirIndex);
    cs := WriteAll(writer, chunks);
    var reader := new FileDescriptor(volume, dirCluster, dirIndex);
    out := ReadAll(reader, sizes, cs);
  }

  /** One write at the place of a descriptor, and all bytes of the file read back: they are the old ones and the new
      ones if the write adds at most one cluster to an existing chain. Otherwise the bytes after the old end of the
      chain are what the lowest free cluster held, so that bytes appended to a full file are lost unless that cluster
      happened to hold the same. */
  method WriteAndReadBack(fd: FileDescriptor, buf: seq<Byte>, ghost cs: seq<nat>, ghost k: nat) returns (out: seq<Byte>)
    requires fd.Mounted() && fd.Has(cs) && fd.Writer(cs, k) && fd.wrOff + |buf| < 0x1_0000_0000
    requires FreeCount(fd.volume.fat[..], 2) >= fd.Demand(cs, k, |buf|)
    modifies fd`wrOff, fd`wrCluster, fd`wrClusterOff, fd.volume.fat, fd.volume.data, fd.volume.slots
    ensures |out| == old(fd.wrOff) + |buf|
    ensures old(fd.AddsOneCluster(cs, |buf|)) ==>
      old(fd.wrOff <= |Flat(fd.volume.data[..], cs)|) && out == old(Flat(fd.volume.data[..], cs)[..fd.wrOff]) + buf
    ensures !old(fd.AddsOneCluster(cs, |buf|)) ==>
      var end, size := Start(|cs|, fd.volume.bytesPerCluster), fd.volume.bytesPerCluster;
      && end + size <= |out| && out[end..end + size] == old(StaleBytes(fd.volume.fat[..], fd.volume.data[..]))
      && (old(fd.wrOff) == end && |buf| >= size && old(StaleBytes(fd.volume.fat[..], fd.volume.data[..])) != buf[..size]
          ==> out[end..] != buf)
  {
    hide Flat, IsPath, IsEnd, FirstFree, FreeCount, OthersKept, ReadPlace, StaleBytes;
    ghost var end, size := Start(|cs|, fd.volume.bytesPerCluster), fd.volume.bytesPerCluster;
    var total;
    ghost var cs', k';
    total, cs', k' := fd.Write(buf, cs, k);
    ghost var flat := Flat(fd.volume.data[..], cs');
    var reader := new FileDescriptor(fd.volume, fd.dirCluster, fd.dirIndex);
    out := reader.Read(reader.Entry().fileSize, cs');
    assert out == flat[..fd.wrOff];
    if !old(fd.AddsOneCluster(cs, |buf|)) {
      assert out[end..end + size] == flat[end..end + size];
      assert out[end..][..size] == out[end..end + size];
    }
  }
}
