/** File descriptors: sequential reading and writing, and loading from an offset (kernel/fat.cpp). */
module FatDescriptor {
  import opened Basics
  import opened FatChains
  import opened FatVolume
  import opened FatContents
  import opened FatFile

  function Min(a: nat, b: nat): nat {
    if a <= b then a else b
  }

  /** `cluster` and `off` are the place for reading at `pos` in the chain `cs`. */
  ghost predicate ReadPlace(cs: seq<nat>, cluster: nat, off: nat, pos: nat, size: nat) {
    || (cluster == END_OF_CHAIN && off == 0 && pos == Start(|cs|, size))
    || exists k: nat :: k < |cs| && cluster == cs[k] && off < size && pos == Start(k, size) + off
  }

  lemma StartPlace(fat: seq<nat>, cs: seq<nat>, size: nat)
    requires IsChain(fat, cs) && size > 0
    ensures ReadPlace(cs, cs[0], 0, 0, size) && cs[0] >= 2
  {
    StartNext(0, size);
  }

  lemma PlaceBefore(cs: seq<nat>, cluster: nat, off: nat, pos: nat, size: nat) returns (k: nat)
    requires ReadPlace(cs, cluster, off, pos, size) && pos < Start(|cs|, size)
    ensures k < |cs| && cluster == cs[k] && off < size && pos == Start(k, size) + off
  {
    k :| k < |cs| && cluster == cs[k] && off < size && pos == Start(k, size) + off;
  }

  lemma PlaceAfter(fat: seq<nat>, cs: seq<nat>, k: nat, off: nat, size: nat)
    requires |fat| <= MAX_CLUSTERS && IsChain(fat, cs) && k < |cs| && off <= size
    ensures cs[k] < |fat|
    ensures off < size ==> ReadPlace(cs, cs[k], off, Start(k, size) + off, size) && cs[k] != 0
    ensures var next := if IsEnd(fat[cs[k]]) then END_OF_CHAIN else fat[cs[k]];
      off == size && size > 0 ==> next != 0 && ReadPlace(cs, next, 0, Start(k, size) + off, size)
  {
    ChainStep(fat, cs, k);
    StartNext(k, size);
    if k + 1 < |cs| {
      ChainStep(fat, cs, k + 1);
    }
  }

  lemma ChunkOf(fat: seq<nat>, data: seq<seq<Byte>>, cs: seq<nat>, k: nat, off: nat, n: nat, size: nat)
    requires IsChain(fat, cs) && |data| == |fat| && Sized(data, size) && k < |cs| && off + n <= size
    ensures cs[k] < |data| && |data[cs[k]]| == size
    ensures Start(k, size) + off + n <= |Flat(data, cs)| == Start(|cs|, size)
    ensures data[cs[k]][off..off + n] == Flat(data, cs)[Start(k, size) + off..Start(k, size) + off + n]
  {
    ReadChunk(data, cs, k, off, n, size);
    FlatLength(data, cs, size);
  }

  lemma SliceJoin(s: seq<Byte>, a: nat, b: nat, c: nat)
    requires a <= b <= c <= |s|
    ensures s[a..b] + s[b..c] == s[a..c]
  {}

  lemma SlicePrefix(s: seq<Byte>, n: nat, a: nat, b: nat)
    requires a <= b <= n <= |s|
    ensures s[..n][a..b] == s[a..b]
  {}

  /** A cluster that lies before an offset within the chain belongs to it. */
  lemma ChainFits(cs: seq<nat>, k: nat, size: nat, offset: nat)
    requires k <= |cs| && Start(k, size) + size <= offset <= Start(|cs|, size) && size > 0
    ensures k < |cs|
  {}

  lemma NextIs(fat: seq<nat>, cs: seq<nat>, k: nat)
    requires |fat| <= MAX_CLUSTERS && IsChain(fat, cs) && k < |cs|
    ensures cs[k] < |fat|
    ensures (if IsEnd(fat[cs[k]]) then END_OF_CHAIN else fat[cs[k]]) == if k + 1 < |cs| then cs[k + 1] else END_OF_CHAIN
  {
    ChainStep(fat, cs, k);
  }

  lemma PlaceAt(cs: seq<nat>, k: nat, off: nat, size: nat, pos: nat)
    requires k <= |cs| && off < size && pos == Start(k, size) + off <= Start(|cs|, size)
    ensures k < |cs| ==> ReadPlace(cs, cs[k], off, pos, size)
    ensures k == |cs| ==> off == 0 && ReadPlace(cs, END_OF_CHAIN, off, pos, size)
  {}

  class FileDescriptor {
    const volume: Volume
    /** Where the directory entry of the file is. */
    const dirCluster: nat
    const dirIndex: nat
    var rdOff: nat
    var rdCluster: nat
    var rdClusterOff: nat
    var wrOff: nat
    var wrCluster: nat
    var wrClusterOff: nat

    constructor (volume: Volume, dirCluster: nat, dirIndex: nat)
      ensures this.volume == volume && this.dirCluster == dirCluster && this.dirIndex == dirIndex
      ensures rdOff == 0 && rdCluster == 0 && rdClusterOff == 0 && wrOff == 0 && wrCluster == 0 && wrClusterOff == 0
    {
      this.volume, this.dirCluster, this.dirIndex := volume, dirCluster, dirIndex;
      rdOff, rdCluster, rdClusterOff, wrOff, wrCluster, wrClusterOff := 0, 0, 0, 0, 0, 0;
    }

    ghost predicate Mounted()
      reads volume.data, volume.slots
    {
      volume.Valid() && dirCluster < volume.slots.Length && dirIndex < |volume.slots[dirCluster]|
    }

    function Entry(): DirEntry
      requires dirCluster < volume.slots.Length && dirIndex < |volume.slots[dirCluster]|
      reads volume.slots
    {
      volume.slots[dirCluster][dirIndex]
    }

    /** The file's clusters: none, or the chain from its first cluster, long enough for its size. */
    ghost predicate Has(cs: seq<nat>)
      requires Mounted()
      reads volume.fat, volume.data, volume.slots
    {
      && Entry().fileSize <= Start(|cs|, volume.bytesPerCluster)
      && if cs == [] then Entry().FirstCluster() == 0
         else Entry().FirstCluster() == cs[0] && IsChain(volume.fat[..], cs)
    }

    ghost function Content(cs: seq<nat>): seq<Byte>
      requires Mounted() && Entry().fileSize <= |Flat(volume.data[..], cs)|
      reads volume.data, volume.slots
    {
      Flat(volume.data[..], cs)[..Entry().fileSize]
    }

    // ----- reading

    ghost predicate Reader(cs: seq<nat>)
      requires Mounted()
      reads this, volume.data, volume.slots
    {
      && rdOff <= Entry().fileSize
      && if rdCluster == 0 then rdOff == 0 && rdClusterOff == 0
         else ReadPlace(cs, rdCluster, rdClusterOff, rdOff, volume.bytesPerCluster)
    }

    lemma ContentFits(cs: seq<nat>)
      requires Mounted() && Has(cs)
      ensures Entry().fileSize <= |Flat(volume.data[..], cs)|
    {
      if cs != [] {
        FlatLength(volume.data[..], cs, volume.bytesPerCluster);
      } else {
        StartNext(0, volume.bytesPerCluster);
      }
    }

    /** The bytes that one cluster has of the next `limit` ones. */
    method NextChunk(limit: nat, ghost cs: seq<nat>, ghost pos: nat) returns (chunk: seq<Byte>)
      requires Mounted() && IsChain(volume.fat[..], cs) && limit > 0
      requires pos + limit <= Entry().fileSize <= Start(|cs|, volume.bytesPerCluster)
      requires ReadPlace(cs, rdCluster, rdClusterOff, pos, volume.bytesPerCluster)
      modifies this`rdCluster, this`rdClusterOff
      ensures 0 < |chunk| <= limit && Entry().fileSize <= |Flat(volume.data[..], cs)|
      ensures chunk == Flat(volume.data[..], cs)[pos..pos + |chunk|]
      ensures rdCluster != 0 && ReadPlace(cs, rdCluster, rdClusterOff, pos + |chunk|, volume.bytesPerCluster)
    {
      hide Flat, Start, IsPath, ReadPlace;
      ghost var k := PlaceBefore(cs, rdCluster, rdClusterOff, pos, volume.bytesPerCluster);
      var n := Min(limit, volume.bytesPerCluster - rdClusterOff);
      PlaceAfter(volume.fat[..], cs, k, rdClusterOff + n, volume.bytesPerCluster);
      ChunkOf(volume.fat[..], volume.data[..], cs, k, rdClusterOff, n, volume.bytesPerCluster);
      chunk := volume.data[rdCluster][rdClusterOff..rdClusterOff + n];
      rdClusterOff := rdClusterOff + n;
      if rdClusterOff == volume.bytesPerCluster {
        rdCluster := volume.NextCluster(rdCluster);
        rdClusterOff := 0;
      }
    }

    /** Reads at most `len` bytes: the next bytes of the file, as many as there are. */
    method Read(len: nat, ghost cs: seq<nat>) returns (buf: seq<Byte>)
      requires Mounted() && Has(cs) && Reader(cs)
      modifies this`rdOff, this`rdCluster, this`rdClusterOff
      ensures Reader(cs)
      ensures Entry().fileSize <= |Flat(volume.data[..], cs)|
      ensures var n := Min(len, Entry().fileSize - old(rdOff));
        rdOff == old(rdOff) + n && buf == Content(cs)[old(rdOff)..old(rdOff) + n]
    {
      hide Flat, Start, IsPath, ReadPlace;
      ContentFits(cs);
      StartNext(0, volume.bytesPerCluster);
      if rdCluster == 0 {
        rdCluster := Entry().FirstCluster();
        if cs != [] {
          StartPlace(volume.fat[..], cs, volume.bytesPerCluster);
        }
      }
      var total, n := 0, Min(len, Entry().fileSize - rdOff);
      ghost var flat := Flat(volume.data[..], cs);
      buf := [];
      while total < n
        modifies this`rdCluster, this`rdClusterOff
        invariant total <= n && buf == flat[rdOff..rdOff + total]
        invariant if rdCluster == 0 then cs == [] && rdClusterOff == 0 && rdOff + total == 0
                  else ReadPlace(cs, rdCluster, rdClusterOff, rdOff + total, volume.bytesPerCluster)
        decreases n - total
      {
        var chunk := NextChunk(n - total, cs, rdOff + total);
        SliceJoin(flat, rdOff, rdOff + total, rdOff + total + |chunk|);
        buf := buf + chunk;
        total := total + |chunk|;
      }
      SlicePrefix(flat, Entry().fileSize, rdOff, rdOff + total);
      rdOff := rdOff + total;
    }

    /** Reads at most `len` bytes from `offset` on, through a descriptor of its own that starts there. */
    method Load(len: nat, offset: nat, ghost cs: seq<nat>) returns (buf: seq<Byte>)
      requires Mounted() && Has(cs) && offset <= Entry().fileSize
      ensures Entry().fileSize <= |Flat(volume.data[..], cs)|
      ensures buf == Content(cs)[offset..offset + Min(len, Entry().fileSize - offset)]
    {
      hide Flat, Start, IsPath, ReadPlace;
      var fd := new FileDescriptor(volume, dirCluster, dirIndex);
      fd.rdOff := offset;
      var cluster, rest: nat := Entry().FirstCluster(), offset;
      StartNext(0, volume.bytesPerCluster);
      if cs != [] {
        StartPlace(volume.fat[..], cs, volume.bytesPerCluster);
      }
      ghost var k := 0;
      while rest >= volume.bytesPerCluster
        modifies {}
        invariant k <= |cs| && Start(k, volume.bytesPerCluster) + rest == offset
        invariant cluster == if k < |cs| then cs[k] else if k == 0 then 0 else END_OF_CHAIN
        decreases rest
      {
        StartNext(k, volume.bytesPerCluster);
        ChainFits(cs, k, volume.bytesPerCluster, offset);
        NextIs(volume.fat[..], cs, k);
        rest := rest - volume.bytesPerCluster;
        cluster := volume.NextCluster(cluster);
        k := k + 1;
      }
      fd.rdCluster := cluster;
      fd.rdClusterOff := rest;
      PlaceAt(cs, k, rest, volume.bytesPerCluster, offset);
      if k < |cs| {
        ChainStep(volume.fat[..], cs, k);
      }
      buf := fd.Read(len, cs);
    }

    // ----- writing

    /** The place to go on writing is `wrOff` bytes from the start of the chain: in its cluster number `k`, or not
        yet known. */
    ghost predicate Writer(cs: seq<nat>, k: nat)
      reads this
    {
      if wrCluster == 0 then wrOff == 0 && wrClusterOff == 0 && k == 0
      else
        && k < |cs| && wrCluster == cs[k] && wrClusterOff <= volume.bytesPerCluster
        && wrOff == Start(k, volume.bytesPerCluster) + wrClusterOff
    }

    /** How many free clusters a write of `len` bytes takes. */
    ghost function Demand(cs: seq<nat>, k: nat, len: nat): nat
      requires volume.bytesPerCluster > 0
      reads this
    {
      if cs == [] then FirstDemand(len, volume.bytesPerCluster)
      else if Room(|cs|, k, wrClusterOff, volume.bytesPerCluster) < 0 then 0
      else Needed(Room(|cs|, k, wrClusterOff, volume.bytesPerCluster), len, volume.bytesPerCluster)
    }

    /** Only the entry of this file changed in the directories. */
    twostate predicate OnlyEntry(entry: DirEntry)
      requires old(dirCluster < volume.slots.Length && dirIndex < |volume.slots[dirCluster]|)
      reads volume.slots
    {
      && (forall c :: 0 <= c < volume.slots.Length && c != dirCluster ==> volume.slots[c] == old(volume.slots[c]))
      && volume.slots[dirCluster] == old(volume.slots[dirCluster])[dirIndex := entry]
    }

    /** The first write of a descriptor finds the file's first cluster; a file without clusters gets enough for
        `len` bytes, and at least one. */
    method OpenForWrite(len: nat, ghost cs: seq<nat>) returns (ghost cs': seq<nat>)
      requires Mounted() && Has(cs) && wrCluster == 0
      requires cs == [] ==> FreeCount(volume.fat[..], 2) >= FirstDemand(len, volume.bytesPerCluster)
      modifies this`wrCluster, volume.fat, volume.slots
      ensures Mounted() && cs' != [] && IsChain(volume.fat[..], cs') && wrCluster == cs'[0]
      ensures cs' == if cs == [] then FirstFree(old(volume.fat[..]), 2, FirstDemand(len, volume.bytesPerCluster)) else cs
      ensures OthersKept(old(volume.fat[..]), volume.data[..], cs, volume.fat[..], volume.data[..], cs')
      ensures cs != [] ==> volume.fat[..] == old(volume.fat[..])
      ensures cs == [] ==>
        FreeCount(volume.fat[..], 2) == old(FreeCount(volume.fat[..], 2)) - FirstDemand(len, volume.bytesPerCluster)
      ensures OnlyEntry(WithFirst(old(Entry()), cs'[0])) && WithFirst(old(Entry()), cs'[0]).FirstCluster() == cs'[0]
    {
      hide Flat, Start, IsPath, IsEnd, FirstFree, FreeCount, CeilDiv;
      cs' := cs;
      if Entry().FirstCluster() != 0 {
        wrCluster := Entry().FirstCluster();
        OthersKeptSame(volume.fat[..], volume.data[..], cs);
      } else {
        var first;
        NoZeroCluster(volume.fat[..], cs);
        first, cs' := volume.AllocateClusterChain(CeilDiv(len, volume.bytesPerCluster));
        wrCluster := first;
        volume.slots[dirCluster] := volume.slots[dirCluster][dirIndex := WithFirst(Entry(), wrCluster)];
      }
      ChainStep(volume.fat[..], cs', 0);
      FirstIs(old(Entry()), cs'[0]);
    }

    /** Moves to the next cluster of the chain, which is extended by as many clusters as the remaining bytes need
        when there is none; an extension returns its last cluster. */
    method NextCluster(remaining: nat, ghost g: WriteStart, ghost cs: seq<nat>, ghost k: nat) returns (ghost cs': seq<nat>, ghost k': nat)
      requires Mounted() && g.size == volume.bytesPerCluster && remaining <= |g.buf|
      requires Writing(g, volume.fat[..], volume.data[..], cs, k, g.size, |g.buf| - remaining) && remaining > 0
      requires wrCluster == cs[k]
      modifies this`wrCluster, this`wrClusterOff, volume.fat
      ensures Writing(g, volume.fat[..], volume.data[..], cs', k', 0, |g.buf| - remaining) && cs <= cs'
      ensures wrCluster == cs'[k'] && wrClusterOff == 0
      ensures OthersKept(old(volume.fat[..]), volume.data[..], cs, volume.fat[..], volume.data[..], cs')
    {
      hide Flat, Start, IsPath, IsEnd, FirstFree, FreeCount, CeilDiv, Room, Needed;
      ghost var fat, data := volume.fat[..], volume.data[..];
      ChainStep(fat, cs, k);
      var next := volume.NextCluster(wrCluster);
      if next == END_OF_CHAIN {
        LastCluster(fat, cs, k);
        WritesExtended(g, fat, data, cs, k, |g.buf| - remaining);
        ghost var m := CeilDiv(remaining, g.size);
        cs', k' := cs + FirstFree(fat, 2, m), k + m;
        wrCluster := volume.ExtendCluster(wrCluster, CeilDiv(remaining, volume.bytesPerCluster), cs);
      } else {
        NextIs(fat, cs, k);
        WritesNext(g, fat, data, cs, k, |g.buf| - remaining);
        OthersKeptSame(fat, data, cs);
        cs', k' := cs, k + 1;
        wrCluster := next;
      }
      wrClusterOff := 0;
    }

    /** Copies into the current cluster what it has room for. */
    method StoreChunk(bytes: seq<Byte>, ghost g: WriteStart, ghost cs: seq<nat>, ghost k: nat, ghost done: nat) returns (n: nat)
      requires Mounted() && g.size == volume.bytesPerCluster && wrClusterOff < g.size && bytes != []
      requires done + |bytes| == |g.buf| && bytes == g.buf[done..]
      requires Writing(g, volume.fat[..], volume.data[..], cs, k, wrClusterOff, done) && wrCluster == cs[k]
      modifies this`wrClusterOff, volume.data
      ensures Mounted() && 0 < n <= |bytes| && wrClusterOff <= g.size
      ensures Writing(g, volume.fat[..], volume.data[..], cs, k, wrClusterOff, done + n)
      ensures OthersKept(volume.fat[..], old(volume.data[..]), cs, volume.fat[..], volume.data[..], cs)
    {
      hide Flat, Start, IsChain, IsEnd, FirstFree, FreeCount, Room, Needed, Patched, OthersKept, Writing;
      n := Min(|bytes|, volume.bytesPerCluster - wrClusterOff);
      WritesChunk(g, volume.fat[..], volume.data[..], cs, k, wrClusterOff, done, n);
      assert g.buf[done..done + n] == bytes[..n];
      volume.data[wrCluster] := Patched(volume.data[wrCluster], wrClusterOff, bytes[..n]);
      wrClusterOff := wrClusterOff + n;
    }

    /** What a write starts from once the file's first cluster is known. */
    ghost function StartOf(buf: seq<Byte>, cs: seq<nat>, stale: seq<Byte>, spare: nat): WriteStart
      requires Mounted() && wrOff <= |Flat(volume.data[..], cs)|
      reads this, volume.data, volume.slots
    {
      WriteStart(volume.bytesPerCluster, |cs|, wrOff, Flat(volume.data[..], cs)[..wrOff], buf, stale, spare)
    }

    /** Writes all bytes, in as many chunks as clusters are touched. */
    method StoreAll(buf: seq<Byte>, ghost g: WriteStart, ghost cs: seq<nat>, ghost k: nat) returns (total: nat, ghost cs': seq<nat>, ghost k': nat)
      requires Mounted() && g.size == volume.bytesPerCluster && g.buf == buf
      requires Writing(g, volume.fat[..], volume.data[..], cs, k, wrClusterOff, 0) && wrCluster == cs[k]
      modifies this`wrCluster, this`wrClusterOff, volume.fat, volume.data
      ensures Mounted() && total == |buf| && cs <= cs' && wrClusterOff <= g.size
      ensures Writing(g, volume.fat[..], volume.data[..], cs', k', wrClusterOff, |buf|) && wrCluster == cs'[k']
      ensures OthersKept(old(volume.fat[..]), old(volume.data[..]), cs, volume.fat[..], volume.data[..], cs')
    {
      hide Flat, Start, IsChain, IsEnd, FirstFree, FreeCount, Room, Needed, OthersKept;
      ghost var fat0, data0 := volume.fat[..], volume.data[..];
      OthersKeptSame(fat0, data0, cs);
      cs', k' := cs, k;
      total := 0;
      while total < |buf|
        invariant Mounted() && total <= |buf| && cs <= cs' && wrClusterOff <= g.size
        invariant Writing(g, volume.fat[..], volume.data[..], cs', k', wrClusterOff, total) && wrCluster == cs'[k']
        invariant OthersKept(fat0, data0, cs, volume.fat[..], volume.data[..], cs')
        decreases |buf| - total
      {
        ghost var fat1, data1, cs1 := volume.fat[..], volume.data[..], cs';
        if wrClusterOff == volume.bytesPerCluster {
          cs', k' := NextCluster(|buf| - total, g, cs', k');
          OthersKeptThen(fat0, data0, cs, fat1, data1, cs1, volume.fat[..], volume.data[..], cs');
        }
        ghost var fat2, data2 := volume.fat[..], volume.data[..];
        var n := StoreChunk(buf[total..], g, cs', k', total);
        OthersKeptThen(fat0, data0, cs, fat2, data2, cs', volume.fat[..], volume.data[..], cs');
        total := total + n;
      }
    }

    /** The write adds at most one cluster to a chain that exists. */
    ghost predicate AddsOneCluster(cs: seq<nat>, len: nat)
      reads this
    {
      cs == [] || wrOff + len <= Start(|cs|, volume.bytesPerCluster) + volume.bytesPerCluster
    }

    /** The start of a write: the first cluster is known and the place to write at is in the chain. */
    method BeginWrite(buf: seq<Byte>, ghost cs: seq<nat>, ghost k: nat) returns (ghost g: WriteStart, ghost cs1: seq<nat>)
      requires Mounted() && Has(cs) && Writer(cs, k)
      requires FreeCount(volume.fat[..], 2) >= Demand(cs, k, |buf|)
      modifies this`wrCluster, volume.fat, volume.slots
      ensures Mounted() && cs1 != [] && cs <= cs1
      ensures wrOff <= |Flat(volume.data[..], cs)| == Start(|cs|, volume.bytesPerCluster)
      ensures OnlyEntry(WithFirst(old(Entry()), cs1[0])) && Entry().FirstCluster() == cs1[0]
      ensures OthersKept(old(volume.fat[..]), volume.data[..], cs, volume.fat[..], volume.data[..], cs1)
      ensures Writing(g, volume.fat[..], volume.data[..], cs1, k, wrClusterOff, 0) && wrCluster == cs1[k]
      ensures g.size == volume.bytesPerCluster && g.buf == buf && g.offset == wrOff
      ensures g.prefix == Flat(volume.data[..], cs)[..wrOff]
      ensures g.ExtendsByOne() <==> old(AddsOneCluster(cs, |buf|))
      ensures g.spare == old(FreeCount(volume.fat[..], 2) - Demand(cs, k, |buf|))
      ensures !g.ExtendsByOne() ==> g.clusters == |cs| && g.stale == old(StaleBytes(volume.fat[..], volume.data[..]))
    {
      hide Flat, Start, IsPath, IsEnd, FirstFree, FreeCount, Room, Needed, OthersKept, Writing, CeilDiv, StaleBytes, WithFirst;
      ghost var fat0, data0, size := volume.fat[..], volume.data[..], volume.bytesPerCluster;
      ghost var demand := Demand(cs, k, |buf|);
      cs1 := cs;
      WriterFits(cs, k);
      if wrCluster == 0 {
        cs1 := OpenForWrite(|buf|, cs);
      } else {
        OthersKeptSame(fat0, data0, cs);
        OldFirst(cs);
      }
      StartNext(0, size);
      OpenedRoom(cs, cs1, |buf|, size, k);
      ChainLength(volume.fat[..], data0, cs1, size);
      g := StartOf(buf, cs1, StaleBytes(fat0, data0), FreeCount(fat0, 2) - demand);
      WritingStarts(g, volume.fat[..], data0, cs1, k, wrClusterOff);
    }

    /** Writes `buf` at the writing place and sets the size of the file to the end of what was written. The place
        stays right exactly when at most one cluster is added; then the file holds the bytes, and otherwise the
        bytes after the old end of the chain are what the lowest free cluster held. */
    method Write(buf: seq<Byte>, ghost cs: seq<nat>, ghost k: nat) returns (total: nat, ghost cs': seq<nat>, ghost k': nat)
      requires Mounted() && Has(cs) && Writer(cs, k) && wrOff + |buf| < 0x1_0000_0000
      requires FreeCount(volume.fat[..], 2) >= Demand(cs, k, |buf|)
      modifies this`wrOff, this`wrCluster, this`wrClusterOff, volume.fat, volume.data, volume.slots
      ensures Mounted() && Has(cs') && cs' != [] && cs <= cs' && total == |buf| && wrOff == old(wrOff) + |buf|
      ensures OnlyEntry(WithFirst(old(Entry()), cs'[0]).(fileSize := wrOff))
      ensures OthersKept(old(volume.fat[..]), old(volume.data[..]), cs, volume.fat[..], volume.data[..], cs')
      ensures FreeCount(volume.fat[..], 2) == old(FreeCount(volume.fat[..], 2) - Demand(cs, k, |buf|))
      ensures k' < |cs'| && wrCluster == cs'[k'] && wrClusterOff <= volume.bytesPerCluster
      ensures Writer(cs', k') <==> old(AddsOneCluster(cs, |buf|))
      ensures Entry().fileSize == wrOff <= |Flat(volume.data[..], cs')|
      ensures old(AddsOneCluster(cs, |buf|)) ==>
        old(wrOff <= |Flat(volume.data[..], cs)|) && Content(cs') == old(Flat(volume.data[..], cs)[..wrOff]) + buf
      ensures !old(AddsOneCluster(cs, |buf|)) ==>
        var end := Start(|cs|, volume.bytesPerCluster);
        && end + volume.bytesPerCluster <= |Flat(volume.data[..], cs')|
        && Flat(volume.data[..], cs')[end..end + volume.bytesPerCluster] == old(StaleBytes(volume.fat[..], volume.data[..]))
    {
      hide Flat, Start, IsPath, IsEnd, FirstFree, FreeCount, Room, Needed, OthersKept, Writing, CeilDiv, StaleBytes, WithFirst,
        WriteStart.ExtendsByOne, AddsOneCluster, Demand;
      ghost var fat0, data0 := volume.fat[..], volume.data[..];
      ghost var g, cs1 := BeginWrite(buf, cs, k);
      ghost var fat1 := volume.fat[..];
      total, cs', k' := StoreAll(buf, g, cs1, k);
      WriteEnds(g, volume.fat[..], volume.data[..], cs', k', wrClusterOff);
      WritingIn(g, volume.fat[..], volume.data[..], cs', k', wrClusterOff, |buf|);
      OthersKeptThen(fat0, data0, cs, fat1, data0, cs1, volume.fat[..], volume.data[..], cs');
      wrOff := wrOff + total;
      volume.slots[dirCluster] := volume.slots[dirCluster][dirIndex := Entry().(fileSize := wrOff)];
    }

    lemma WriterFits(cs: seq<nat>, k: nat)
      requires Mounted() && Has(cs) && Writer(cs, k)
      ensures cs == [] ==> wrCluster == 0
      ensures wrOff <= |Flat(volume.data[..], cs)| == Start(|cs|, volume.bytesPerCluster)
      ensures cs != [] ==>
        && k < |cs| && wrClusterOff <= volume.bytesPerCluster
        && Room(|cs|, k, wrClusterOff, volume.bytesPerCluster) == Start(|cs|, volume.bytesPerCluster) - wrOff >= 0
    {
      hide Start, Flat, IsPath, IsEnd;
      var size := volume.bytesPerCluster;
      StartNext(0, size);
      if cs == [] {
        FlatLength(volume.data[..], cs, size);
      } else {
        ChainLength(volume.fat[..], volume.data[..], cs, size);
        StartGrows(k, |cs|, size);
      }
    }

    lemma OldFirst(cs: seq<nat>)
      requires Mounted() && Has(cs) && cs != []
      ensures WithFirst(Entry(), cs[0]) == Entry() && Entry().FirstCluster() == cs[0]
    {
      ChainStep(volume.fat[..], cs, 0);
      FirstIs(Entry(), cs[0]);
    }
  }

  lemma LastCluster(fat: seq<nat>, cs: seq<nat>, k: nat)
    requires |fat| <= MAX_CLUSTERS && IsChain(fat, cs) && k < |cs|
    ensures cs[k] < |fat|
    ensures (if IsEnd(fat[cs[k]]) then END_OF_CHAIN else fat[cs[k]]) == END_OF_CHAIN <==> k == |cs| - 1
  {
    ChainStep(fat, cs, k);
    if k + 1 < |cs| {
      ChainStep(fat, cs, k + 1);
    }
  }

  lemma NoZeroCluster(fat: seq<nat>, cs: seq<nat>)
    ensures cs != [] && IsChain(fat, cs) ==> cs[0] != 0
  {}

  /** The clusters that the first write to an empty file takes. */
  function FirstDemand(len: nat, size: nat): nat
    requires size > 0
  {
    if CeilDiv(len, size) == 0 then 1 else CeilDiv(len, size)
  }

  function WithFirst(entry: DirEntry, c: nat): DirEntry {
    entry.(clusterLow := c % 0x1_0000, clusterHigh := c / 0x1_0000 % 0x1_0000)
  }

  /** The entry still has its name and its attribute. */
  lemma FirstKeepsName(entry: DirEntry, c: nat)
    ensures WithFirst(entry, c).name == entry.name && WithFirst(entry, c).attr == entry.attr
  {}

  lemma FirstIs(entry: DirEntry, c: nat)
    requires c < MAX_CLUSTERS
    ensures WithFirst(entry, c).FirstCluster() == c
    ensures c == entry.FirstCluster() ==> WithFirst(entry, c) == entry
  {}

  lemma ChainLength(fat: seq<nat>, data: seq<seq<Byte>>, cs: seq<nat>, size: nat)
    requires IsChain(fat, cs) && |data| == |fat| && Sized(data, size)
    ensures |Flat(data, cs)| == Start(|cs|, size)
  {
    FlatLength(data, cs, size);
  }

  lemma WritingIn(g: WriteStart, fat: seq<nat>, data: seq<seq<Byte>>, cs: seq<nat>, k: nat, off: nat, done: nat)
    requires Writing(g, fat, data, cs, k, off, done)
    ensures IsChain(fat, cs) && k < |cs| && off <= g.size && |Flat(data, cs)| == Start(|cs|, g.size)
    ensures 2 <= cs[k] < |fat|
  {
    ChainLength(fat, data, cs, g.size);
    ChainStep(fat, cs, k);
  }

  /** The room for a write once the first cluster is known. */
  lemma OpenedRoom(cs: seq<nat>, cs1: seq<nat>, len: nat, size: nat, k: nat)
    requires size > 0 && (cs != [] ==> cs1 == cs) && (cs == [] ==> |cs1| == FirstDemand(len, size) && k == 0)
    ensures cs == [] ==> Room(|cs1|, 0, 0, size) == Start(|cs1|, size) >= len && Needed(Room(|cs1|, 0, 0, size), len, size) == 0
  {
    CeilDivIs(len, size);
    StartNext(0, size);
    StartGrows(0, |cs1|, size);
  }
}
