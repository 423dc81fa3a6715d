/** A mounted volume: its allocation table and clusters, and the operations on chains (kernel/fat.cpp). */
module FatVolume {
  import opened Basics
  import opened FatChains

  type UInt16 = x: int | 0 <= x < 0x1_0000
  type UInt32 = x: int | 0 <= x < 0x1_0000_0000

  const ENTRY_SIZE: nat := 32

  /** A directory entry; the first cluster is kept in two 16-bit halves. */
  datatype DirEntry = DirEntry(name: seq<Byte>, attr: Byte, clusterHigh: UInt16, clusterLow: UInt16, fileSize: UInt32) {
    function FirstCluster(): nat {
      clusterLow + 0x1_0000 * clusterHigh
    }
  }

  function CeilDiv(n: nat, d: nat): nat
    requires d > 0
  {
    (n + d - 1) / d
  }

  class Volume {
    const bytesPerCluster: nat
    const rootCluster: nat
    const fat: array<nat>
    /** The clusters that hold file data. */
    const data: array<seq<Byte>>
    /** The clusters that hold directory entries. */
    const slots: array<seq<DirEntry>>

    ghost predicate Valid()
      reads data, slots
    {
      && bytesPerCluster >= ENTRY_SIZE && fat.Length <= MAX_CLUSTERS
      && data.Length == fat.Length && slots.Length == fat.Length
      && (forall c :: 0 <= c < data.Length ==> |data[c]| == bytesPerCluster)
      && (forall c :: 0 <= c < slots.Length ==> |slots[c]| == bytesPerCluster / ENTRY_SIZE)
    }

    /** The cluster after `c` in its chain, or the end marker. */
    function NextCluster(c: nat): (next: nat)
      requires c < fat.Length
      reads fat
    {
      if IsEnd(fat[c]) then END_OF_CHAIN else fat[c]
    }

    /** Appends `n` free clusters to the chain `cs` that `cluster` belongs to; returns the last one. */
    method ExtendCluster(cluster: nat, n: nat, ghost cs: seq<nat>) returns (last: nat)
      requires Valid() && IsChain(fat[..], cs) && cluster in cs && FreeCount(fat[..], 2) >= n
      modifies fat
      ensures fat[..] == Extended(old(fat[..]), cs[|cs| - 1], n)
      ensures last == (cs + FirstFree(old(fat[..]), 2, n))[|cs| + n - 1]
    {
      hide IsChain, Linking, Extended, FirstFree, FreeCount;
      ghost var table, tail := fat[..], cs[|cs| - 1];
      var eoc := cluster;
      ghost var k :| 0 <= k < |cs| && cs[k] == cluster;
      ChainStep(table, cs, k);
      while !IsEnd(fat[eoc])
        invariant 0 <= k < |cs| && eoc == cs[k] < fat.Length && (IsEnd(fat[eoc]) <==> k == |cs| - 1)
        decreases |cs| - k
        modifies {}
      {
        ChainStep(table, cs, k);
        k := k + 1;
        ChainStep(table, cs, k);
        eoc := fat[eoc];
      }
      assert fat[..] == table;
      LinkingStarts(table, tail, n);
      var numAllocated, current, candidate := 0, eoc, 2;
      while numAllocated < n
        invariant 0 <= numAllocated <= n && candidate >= 2
        invariant Linking(table, tail, n, fat[..], current, candidate, numAllocated)
        invariant candidate <= fat.Length && Searched(table, tail, candidate) == Search(fat[..], current, numAllocated)
        decreases fat.Length - candidate
      {
        LinkingStep(table, tail, n, fat[..], current, candidate, numAllocated);
        LinkingInTable(table, tail, n, fat[..], current, candidate, numAllocated);
        if fat[candidate] == 0 {
          fat[current] := candidate;
          current := candidate;
          numAllocated := numAllocated + 1;
        }
        candidate := candidate + 1;
      }
      LinkingInTable(table, tail, n, fat[..], current, candidate, n);
      LinkingEnds(table, tail, n, fat[..], current, candidate);
      fat[current] := END_OF_CHAIN;
      last := current;
    }

    /** A chain of `n` clusters that were free, and of at least one; returns the first. */
    method AllocateClusterChain(n: nat) returns (first: nat, ghost cs: seq<nat>)
      requires Valid() && FreeCount(fat[..], 2) >= n && FreeCount(fat[..], 2) > 0
      modifies fat
      ensures cs == FirstFree(old(fat[..]), 2, if n == 0 then 1 else n) && first == cs[0]
      ensures IsChain(fat[..], cs) && Picked(old(fat[..]), 2, cs)
      ensures FreeCount(fat[..], 2) == old(FreeCount(fat[..], 2)) - |cs|
      ensures forall e :: 0 <= e < fat.Length && e !in cs ==> fat[e] == old(fat[e])
      ensures forall ds :: IsChain(old(fat[..]), ds) ==> IsChain(fat[..], ds) && Disjoint(ds, cs)
    {
      hide IsChain, FirstFree, Picked, Disjoint, Extended, FreeCount;
      ghost var table, m := fat[..], if n == 0 then 1 else n;
      cs := FirstFree(table, 2, m);
      AllocateRest(table, m);
      FirstFreeStep(table, 2, m);
      first := 2;
      while fat[first] != 0
        invariant 2 <= first < fat.Length && FreeCount(table, first) >= m && FirstFree(table, first, m) == cs
        decreases fat.Length - first
        modifies {}
      {
        FirstFreeStep(table, first, m);
        first := first + 1;
        FirstFreeStep(table, first, m);
      }
      FirstFreeStep(table, first, m);
      fat[first] := END_OF_CHAIN;
      assert fat[..] == table[cs[0] := END_OF_CHAIN];
      if n > 1 {
        var last := ExtendCluster(first, n - 1, [cs[0]]);
      }
    }
  }
}
