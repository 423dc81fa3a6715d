/** The firmware's memory map (kernel/memory_map.hpp): descriptor kinds and the exchange sort. */
module MemoryMap {
  const UEFI_PAGE_SIZE: nat := 4096

  /** A firmware descriptor: `kind` is the numeric memory type, `start` a physical byte address. */
  datatype MemoryDescriptor = MemoryDescriptor(kind: nat, start: nat, pages: nat) {
    function End(): nat {
      start + pages * UEFI_PAGE_SIZE
    }
  }

  const BOOT_SERVICES_CODE: nat := 3
  const BOOT_SERVICES_DATA: nat := 4
  const CONVENTIONAL_MEMORY: nat := 7

  predicate IsAvailable(kind: nat) {
    kind == BOOT_SERVICES_CODE || kind == BOOT_SERVICES_DATA || kind == CONVENTIONAL_MEMORY
  }

  ghost predicate SortedByStart(s: seq<MemoryDescriptor>) {
    forall i, j :: 0 <= i < j < |s| ==> s[i].start <= s[j].start
  }

  /** Everything from index `i` on starts no earlier than everything before it. */
  ghost predicate SplitAt(s: seq<MemoryDescriptor>, i: nat) {
    forall a, b :: 0 <= a < i <= b < |s| ==> s[a].start <= s[b].start
  }

  /** Index `i` holds the earliest of the descriptors from `i` up to `j`, and the descriptors before `i` are
      sorted and no later than the rest. */
  ghost predicate Selected(s: seq<MemoryDescriptor>, i: nat, j: nat) {
    && i <= j <= |s|
    && SortedByStart(s[..i]) && SplitAt(s, i)
    && forall b :: i < b < j ==> s[i].start <= s[b].start
  }

  lemma SelectNext(s: seq<MemoryDescriptor>, i: nat, j: nat)
    requires Selected(s, i, j) && i < j < |s|
    ensures s[i].start <= s[j].start ==> Selected(s, i, j + 1)
    ensures s[i].start > s[j].start ==>
      var t := s[i := s[j]][j := s[i]]; Selected(t, i, j + 1) && multiset(t) == multiset(s)
  {
    var t := s[i := s[j]][j := s[i]];
    assert t[..i] == s[..i];
    SwapKeeps(s, i, j);
  }

  lemma SwapKeeps<T>(s: seq<T>, i: nat, j: nat)
    requires i < j < |s|
    ensures multiset(s[i := s[j]][j := s[i]]) == multiset(s)
  {}

  lemma SelectDone(s: seq<MemoryDescriptor>, i: nat)
    requires i < |s| && Selected(s, i, |s|)
    ensures Selected(s, i + 1, i + 1)
  {
    assert s[..i + 1] == s[..i] + [s[i]];
  }

  method SortMemoryMapInPlace(map_: array<MemoryDescriptor>)
    modifies map_
    ensures SortedByStart(map_[..])
    ensures multiset(map_[..]) == multiset(old(map_[..]))
  {
    var i := 0;
    while i < map_.Length
      invariant 0 <= i <= map_.Length
      invariant Selected(map_[..], i, i)
      invariant multiset(map_[..]) == multiset(old(map_[..]))
    {
      hide Selected;
      var j := i + 1;
      SelectFirst(map_[..], i);
      while j < map_.Length
        invariant i < j <= map_.Length
        invariant Selected(map_[..], i, j)
        invariant multiset(map_[..]) == multiset(old(map_[..]))
      {
        SelectNext(map_[..], i, j);
        if map_[i].start > map_[j].start {
          ghost var s := map_[..];
          map_[i], map_[j] := map_[j], map_[i];
          assert map_[..] == s[i := s[j]][j := s[i]];
        }
        j := j + 1;
      }
      SelectDone(map_[..], i);
      i := i + 1;
    }
    assert map_[..][..i] == map_[..];
  }

  lemma SelectFirst(s: seq<MemoryDescriptor>, i: nat)
    requires i < |s| && Selected(s, i, i)
    ensures Selected(s, i, i + 1)
  {}
}
