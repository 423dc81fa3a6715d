/** Reading and writing files through descriptors (kernel/fat.cpp, `FileDescriptor`). */
module FatFile {
  import opened Basics
  import opened FatChains
  import opened FatVolume
  import opened FatContents

  /** The bytes between a place in a chain of `n` clusters and its end. */
  function Room(n: nat, k: nat, off: nat, size: nat): int {
    Start(n, size) - Start(k, size) - off
  }

  /** How many clusters a write of `len` bytes takes: each extension adds room for all that is left, but the write
      goes on in the last cluster added. */
  function Needed(room: nat, len: nat, size: nat): nat
    requires size > 0
    decreases len, if room == 0 then 1 else 0
  {
    if len <= room then 0 else CeilDiv(len - room, size) + Needed(size, len - room, size)
  }

  lemma CeilDivIs(n: nat, d: nat)
    requires d > 0
    ensures n <= Start(CeilDiv(n, d), d)
    ensures n == 0 ==> CeilDiv(n, d) == 0
    ensures 0 < n <= d ==> CeilDiv(n, d) == 1
    ensures n > d ==> CeilDiv(n, d) >= 2
  {
    var q, r := (n + d - 1) / d, (n + d - 1) % d;
    assert n + d - 1 == q * d + r;
    assert q <= 0 ==> q * d <= 0;
    assert q <= 1 ==> q * d <= d;
    assert q >= 2 ==> q * d >= 2 * d;
  }

  lemma NeededAfter(room: nat, len: nat, n: nat, size: nat)
    requires size > 0 && n <= room && n <= len
    ensures Needed(room - n, len - n, size) == Needed(room, len, size)
  {}

  lemma NeededIs(room: nat, len: nat, size: nat)
    requires size > 0
    ensures len > 0 ==> Needed(0, len, size) == CeilDiv(len, size) + Needed(size, len, size)
    ensures len > room + size ==> Needed(room, len, size) >= 2
  {
    if len > room {
      CeilDivIs(len - room, size);
    }
  }

  // ----- a write in progress

  /** What a write starts from: the number of clusters, the offset, the bytes before it, the bytes to write, what
      the first free cluster holds, and how many free clusters the write does not need. */
  datatype WriteStart = WriteStart(size: nat, clusters: nat, offset: nat, prefix: seq<Byte>, buf: seq<Byte>, stale: seq<Byte>,
                                   spare: nat) {
    /** The write extends the chain by one cluster at most. */
    predicate ExtendsByOne() {
      offset + |buf| <= Start(clusters, size) + size
    }
  }

  /** `done` bytes are written, and the place to go on is `off` in cluster number `k`. */
  ghost predicate Writing(g: WriteStart, fat: seq<nat>, data: seq<seq<Byte>>, cs: seq<nat>, k: nat, off: nat, done: nat) {
    && IsChain(fat, cs) && |fat| <= MAX_CLUSTERS && |data| == |fat| && Sized(data, g.size)
    && 0 < g.clusters <= |cs| && k < |cs| && off <= g.size && done <= |g.buf|
    && Room(|cs|, k, off, g.size) >= 0
    && FreeCount(fat, 2) == g.spare + Needed(Room(|cs|, k, off, g.size), |g.buf| - done, g.size)
    && (if g.ExtendsByOne() then
          && Start(k, g.size) + off == g.offset + done && g.offset + done <= |Flat(data, cs)|
          && Flat(data, cs)[..g.offset + done] == g.prefix + g.buf[..done]
          && |g.buf| - done <= Room(|cs|, k, off, g.size) + g.size
        else if |cs| == g.clusters then
          && Start(k, g.size) + off == g.offset + done && FreeCount(fat, 2) >= 1
          && Cluster(data, FirstFree(fat, 2, 1)[0]) == g.stale
        else
          && Start(k, g.size) + off > g.offset + done && k > g.clusters
          && Cluster(data, cs[g.clusters]) == g.stale)
  }

  /** What the lowest free cluster holds. */
  ghost function StaleBytes(fat: seq<nat>, data: seq<seq<Byte>>): seq<Byte> {
    if FreeCount(fat, 2) >= 1 then Cluster(data, FirstFree(fat, 2, 1)[0]) else []
  }

  lemma WritingStarts(g: WriteStart, fat: seq<nat>, data: seq<seq<Byte>>, cs: seq<nat>, k: nat, off: nat)
    requires IsChain(fat, cs) && |fat| <= MAX_CLUSTERS && |data| == |fat| && Sized(data, g.size)
    requires k < |cs| && off <= g.size && g.clusters == |cs| && g.offset == Start(k, g.size) + off <= |Flat(data, cs)|
    requires g.prefix == Flat(data, cs)[..g.offset] && (!g.ExtendsByOne() ==> g.stale == StaleBytes(fat, data))
    requires Room(|cs|, k, off, g.size) >= 0
    requires FreeCount(fat, 2) == g.spare + Needed(Room(|cs|, k, off, g.size), |g.buf|, g.size)
    ensures Writing(g, fat, data, cs, k, off, 0)
  {
    hide IsPath, IsEnd, Flat, Start, FreeCount, FirstFree, Needed;
    NeededIs(Room(|cs|, k, off, g.size), |g.buf|, g.size);
    assert g.prefix + g.buf[..0] == g.prefix;
  }

  lemma RoomIs(n: nat, k: nat, size: nat)
    requires k < n
    ensures forall off: nat :: off <= size ==> Room(n, k, off, size) >= 0
    ensures k + 1 == n ==> Room(n, k, size, size) == 0 && Room(n, k, 0, size) == size
    ensures Room(n, k + 1, 0, size) == Room(n, k, size, size)
  {
    StartGrows(k, n, size);
    StartNext(k, size);
  }

  lemma WritesChunk(g: WriteStart, fat: seq<nat>, data: seq<seq<Byte>>, cs: seq<nat>, k: nat, off: nat, done: nat, n: nat)
    requires Writing(g, fat, data, cs, k, off, done) && off + n <= g.size && done + n <= |g.buf|
    ensures cs[k] < |data| && |data[cs[k]]| == g.size
    ensures Writing(g, fat, data[cs[k] := Patched(data[cs[k]], off, g.buf[done..done + n])], cs, k, off + n, done + n)
    ensures OthersKept(fat, data, cs, fat, data[cs[k] := Patched(data[cs[k]], off, g.buf[done..done + n])], cs)
  {
    hide IsEnd, Flat, Patched, FreeCount, FirstFree, OthersKept, Start, Needed;
    ChainStep(fat, cs, k);
    var bytes := g.buf[done..done + n];
    var data' := data[cs[k] := Patched(data[cs[k]], off, bytes)];
    ChunkEffect(fat, data, cs, k, off, bytes, g.size);
    RoomIs(|cs|, k, g.size);
    NeededAfter(Room(|cs|, k, off, g.size), |g.buf| - done, n, g.size);
    WriteKeepsOthers(fat, data, cs, k, Patched(data[cs[k]], off, bytes));
    if g.ExtendsByOne() {
      PrefixGrows(Flat(data, cs), g.offset + done, bytes);
      assert g.buf[..done + n] == g.buf[..done] + bytes;
    } else if |cs| == g.clusters {
      FreeNotIn(fat, cs);
    } else {
      assert cs[g.clusters] != cs[k];
    }
  }

  lemma ChunkEffect(fat: seq<nat>, data: seq<seq<Byte>>, cs: seq<nat>, k: nat, off: nat, bytes: seq<Byte>, size: nat)
    requires IsChain(fat, cs) && |data| == |fat| && Sized(data, size) && k < |cs| && off + |bytes| <= size
    ensures cs[k] < |data| && |data[cs[k]]| == size && Start(k, size) + off + |bytes| <= |Flat(data, cs)|
    ensures var data' := data[cs[k] := Patched(data[cs[k]], off, bytes)];
      Sized(data', size) && Flat(data', cs) == Patched(Flat(data, cs), Start(k, size) + off, bytes)
  {
    WriteChunk(data, cs, k, off, bytes, size);
  }

  lemma PrefixGrows(flat: seq<Byte>, at: nat, bytes: seq<Byte>)
    requires at + |bytes| <= |flat|
    ensures Patched(flat, at, bytes)[..at + |bytes|] == flat[..at] + bytes
  {}

  lemma FreeNotIn(fat: seq<nat>, cs: seq<nat>)
    requires IsChain(fat, cs) && FreeCount(fat, 2) >= 1
    ensures FirstFree(fat, 2, 1)[0] !in cs
  {
    FirstFreePicked(fat, 2, 1);
    if FirstFree(fat, 2, 1)[0] in cs {
      ChainNotFree(fat, cs, FirstFree(fat, 2, 1)[0]);
    }
  }

  lemma WritesNext(g: WriteStart, fat: seq<nat>, data: seq<seq<Byte>>, cs: seq<nat>, k: nat, done: nat)
    requires Writing(g, fat, data, cs, k, g.size, done) && k + 1 < |cs|
    ensures Writing(g, fat, data, cs, k + 1, 0, done)
  {
    hide IsEnd, Flat, FreeCount, FirstFree, IsChain, Start, Needed;
    RoomIs(|cs|, k, g.size);
    RoomIs(|cs|, k + 1, g.size);
    StartNext(k, g.size);
  }

  lemma WritesExtended(g: WriteStart, fat: seq<nat>, data: seq<seq<Byte>>, cs: seq<nat>, k: nat, done: nat)
    requires Writing(g, fat, data, cs, k, g.size, done) && k + 1 == |cs| && done < |g.buf|
    ensures var m := CeilDiv(|g.buf| - done, g.size);
      && FreeCount(fat, 2) >= m && m > 0
      && Writing(g, Extended(fat, cs[k], m), data, cs + FirstFree(fat, 2, m), k + m, 0, done)
      && OthersKept(fat, data, cs, Extended(fat, cs[k], m), data, cs + FirstFree(fat, 2, m))
  {
    hide IsEnd, Flat, FreeCount, FirstFree, Start, Needed, Extended, OthersKept, IsPath, CeilDiv;
    var m := CeilDiv(|g.buf| - done, g.size);
    RoomIs(|cs|, k, g.size);
    NeededIs(0, |g.buf| - done, g.size);
    CeilDivIs(|g.buf| - done, g.size);
    ExtendChain(fat, cs, m);
    ExtendKeepsOthers(fat, data, cs, m);
    var picks := FirstFree(fat, 2, m);
    RoomIs(|cs| + m, k + m, g.size);
    StartNext(k, g.size);
    if g.ExtendsByOne() {
      assert m == 1;
      FlatJoin(data, cs, picks);
    } else {
      StartGrows(|cs|, k + m, g.size);
      if |cs| == g.clusters {
        FirstOfMany(fat, 2, m);
      }
    }
  }

  lemma {:induction false} FirstOfMany(fat: seq<nat>, from: nat, m: nat)
    requires m > 0 && FreeCount(fat, from) >= m
    ensures FirstFree(fat, from, m)[0] == FirstFree(fat, from, 1)[0]
    decreases |fat| - from
  {
    if fat[from] != 0 {
      FirstOfMany(fat, from + 1, m);
    }
  }

  /** The end of a write: the place matches the offset exactly when the chain was extended by one cluster at most;
      then the file holds the bytes, and otherwise the bytes after the old end of the chain are whatever the
      first free cluster held. */
  lemma WriteEnds(g: WriteStart, fat: seq<nat>, data: seq<seq<Byte>>, cs: seq<nat>, k: nat, off: nat)
    requires Writing(g, fat, data, cs, k, off, |g.buf|)
    ensures FreeCount(fat, 2) == g.spare
    ensures Start(k, g.size) + off == g.offset + |g.buf| <==> g.ExtendsByOne()
    ensures g.offset + |g.buf| <= |Flat(data, cs)|
    ensures g.ExtendsByOne() ==> Flat(data, cs)[..g.offset + |g.buf|] == g.prefix + g.buf
    ensures !g.ExtendsByOne() ==>
      && Start(g.clusters, g.size) + g.size <= |Flat(data, cs)|
      && Flat(data, cs)[Start(g.clusters, g.size)..Start(g.clusters, g.size) + g.size] == g.stale
  {
    FlatLength(data, cs, g.size);
    StartGrows(k, |cs|, g.size);
    assert g.buf[..|g.buf|] == g.buf;
    if !g.ExtendsByOne() && |cs| > g.clusters {
      ReadChunk(data, cs, g.clusters, 0, g.size, g.size);
    }
  }

  /** Two clusters' worth of bytes written at the end of a full one-cluster file: whatever the write does, reading
      back gives something else, unless the free cluster happened to hold the same bytes. */
  lemma TwoClusterWriteFails(fat: seq<nat>, data: seq<seq<Byte>>, cs: seq<nat>, k: nat, off: nat, spare: nat)
    requires var g := WriteStart(32, 1, 32, seq(32, _ => 7), seq(64, _ => 1), seq(32, _ => 0), spare);
      Writing(g, fat, data, cs, k, off, 64)
    ensures |Flat(data, cs)| >= 96 && Flat(data, cs)[..96] != seq(32, _ => 7) + seq(64, _ => 1)
    ensures Start(k, 32) + off != 96
  {
    var g := WriteStart(32, 1, 32, seq(32, _ => 7), seq(64, _ => 1), seq(32, _ => 0), spare);
    StartNext(0, 32);
    StartNext(1, 32);
    WriteEnds(g, fat, data, cs, k, off);
    assert Flat(data, cs)[..96][32] == Flat(data, cs)[32..64][0] == 0;
    assert (seq(32, _ => 7) + seq(64, _ => 1))[32] == 1;
  }
}
