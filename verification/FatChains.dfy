/** Cluster chains in a file allocation table (kernel/fat.cpp), as values. */
module FatChains {
  const END_OF_CHAIN: nat := 0x0fff_ffff

  /** No table has entries for the numbers that mark an end. */
  const MAX_CLUSTERS: nat := 0x0fff_fff8

  predicate IsEnd(c: nat) {
    c >= 0x0fff_fff8
  }

  /** Different clusters, each linked to the next. */
  ghost predicate IsPath(fat: seq<nat>, cs: seq<nat>) {
    && cs != []
    && (forall i :: 0 <= i < |cs| ==> 2 <= cs[i] < |fat|)
    && (forall i, j :: 0 <= i < j < |cs| ==> cs[i] != cs[j])
    && (forall i :: 0 <= i < |cs| - 1 ==> fat[cs[i]] == cs[i + 1])
  }

  /** A complete chain. */
  ghost predicate IsChain(fat: seq<nat>, cs: seq<nat>) {
    IsPath(fat, cs) && IsEnd(fat[cs[|cs| - 1]])
  }

  ghost predicate Disjoint(cs: seq<nat>, ds: seq<nat>) {
    forall c :: c in cs ==> c !in ds
  }

  /** A chain is decided by where it starts. */
  lemma {:induction false} ChainUnique(fat: seq<nat>, cs: seq<nat>, ds: seq<nat>)
    requires |fat| <= MAX_CLUSTERS && IsChain(fat, cs) && IsChain(fat, ds) && cs[0] == ds[0]
    ensures cs == ds
    decreases |cs|
  {
    BothEnd(fat, cs, ds);
    if |cs| > 1 {
      ChainTail(fat, cs);
      ChainTail(fat, ds);
      ChainUnique(fat, cs[1..], ds[1..]);
      assert cs == [cs[0]] + cs[1..] && ds == [ds[0]] + ds[1..];
    }
  }

  lemma BothEnd(fat: seq<nat>, cs: seq<nat>, ds: seq<nat>)
    requires |fat| <= MAX_CLUSTERS && IsChain(fat, cs) && IsChain(fat, ds) && cs[0] == ds[0]
    ensures |cs| == 1 <==> |ds| == 1
  {
    assert |cs| > 1 ==> fat[cs[0]] == cs[1];
    assert |ds| > 1 ==> fat[ds[0]] == ds[1];
  }

  lemma ChainTail(fat: seq<nat>, cs: seq<nat>)
    requires IsChain(fat, cs) && |cs| > 1
    ensures IsChain(fat, cs[1..])
  {}

  /** Entries in use: the clusters of a chain are not free. */
  lemma ChainNotFree(fat: seq<nat>, cs: seq<nat>, c: nat)
    requires IsChain(fat, cs) && c in cs
    ensures c < |fat| && fat[c] != 0
  {
    var i :| 0 <= i < |cs| && cs[i] == c;
    assert i < |cs| - 1 ==> fat[cs[i]] == cs[i + 1];
  }

  // ----- free entries

  /** How many entries from number `from` on are free. */
  function FreeCount(fat: seq<nat>, from: nat): nat
    decreases |fat| - from
  {
    if from >= |fat| then 0 else (if fat[from] == 0 then 1 else 0) + FreeCount(fat, from + 1)
  }

  /** The first `n` free entries from number `from` on. */
  function FirstFree(fat: seq<nat>, from: nat, n: nat): (picks: seq<nat>)
    requires FreeCount(fat, from) >= n
    ensures |picks| == n
    decreases |fat| - from
  {
    if n == 0 then []
    else if fat[from] == 0 then [from] + FirstFree(fat, from + 1, n - 1)
    else FirstFree(fat, from + 1, n)
  }

  /** Free, in ascending order, and passing over no free entry. */
  ghost predicate Picked(fat: seq<nat>, from: nat, picks: seq<nat>) {
    && (forall i :: 0 <= i < |picks| ==> from <= picks[i] < |fat| && fat[picks[i]] == 0)
    && (forall i, j :: 0 <= i < j < |picks| ==> picks[i] < picks[j])
    && (forall c, i :: 0 <= i < |picks| && from <= c < picks[i] && fat[c] == 0 ==> c in picks)
  }

  lemma {:induction false} FirstFreePicked(fat: seq<nat>, from: nat, n: nat)
    requires FreeCount(fat, from) >= n
    ensures Picked(fat, from, FirstFree(fat, from, n))
    decreases |fat| - from
  {
    if n > 0 {
      var picks := FirstFree(fat, from, n);
      if fat[from] == 0 {
        FirstFreePicked(fat, from + 1, n - 1);
        var rest := FirstFree(fat, from + 1, n - 1);
        assert picks == [from] + rest;
        forall c, i | 0 <= i < |picks| && from <= c < picks[i] && fat[c] == 0
          ensures c in picks
        {
          if c == from {
            assert picks[0] == c;
          } else {
            assert picks[i] == rest[i - 1];
          }
        }
      } else {
        FirstFreePicked(fat, from + 1, n);
      }
    }
  }

  lemma {:induction false} FreeSame(fat: seq<nat>, fat': seq<nat>, from: nat, n: nat)
    requires |fat'| == |fat| && forall i :: from <= i < |fat| ==> (fat[i] == 0 <==> fat'[i] == 0)
    ensures FreeCount(fat', from) == FreeCount(fat, from)
    ensures n <= FreeCount(fat, from) ==> FirstFree(fat', from, n) == FirstFree(fat, from, n)
    decreases |fat| - from
  {
    if from < |fat| {
      FreeSame(fat, fat', from + 1, n);
      if n > 0 {
        FreeSame(fat, fat', from + 1, n - 1);
      }
    }
  }

  lemma {:induction false} FreeUpdate(fat: seq<nat>, from: nat, i: nat, v: nat)
    requires from <= i < |fat| && v != 0
    ensures FreeCount(fat[i := v], from) == FreeCount(fat, from) - if fat[i] == 0 then 1 else 0
    decreases |fat| - from
  {
    if from == i {
      FreeSame(fat, fat[i := v], i + 1, 0);
    } else {
      FreeUpdate(fat, from + 1, i, v);
    }
  }

  // ----- linking

  /** Entry `c` is linked to the first of `picks`, each of those to the next, and the last one ends the chain. */
  function Linked(fat: seq<nat>, c: nat, picks: seq<nat>): (fat': seq<nat>)
    requires c < |fat| && forall i :: 0 <= i < |picks| ==> picks[i] < |fat|
    ensures |fat'| == |fat|
    decreases |picks|
  {
    if picks == [] then fat[c := END_OF_CHAIN] else Linked(fat[c := picks[0]], picks[0], picks[1..])
  }

  lemma {:induction false} LinkedOthers(fat: seq<nat>, c: nat, picks: seq<nat>, e: nat)
    requires c < |fat| && forall i :: 0 <= i < |picks| ==> picks[i] < |fat|
    requires e < |fat| && e != c && e !in picks
    ensures Linked(fat, c, picks)[e] == fat[e]
    decreases |picks|
  {
    if picks != [] {
      assert picks[0] in picks;
      LinkedOthers(fat[c := picks[0]], picks[0], picks[1..], e);
    }
  }

  /** The picks are free clusters that the path does not contain. */
  ghost predicate Appendable(fat: seq<nat>, cs: seq<nat>, picks: seq<nat>) {
    && (forall i :: 0 <= i < |picks| ==> 2 <= picks[i] < |fat| && fat[picks[i]] == 0 && picks[i] !in cs)
    && (forall i, j :: 0 <= i < j < |picks| ==> picks[i] != picks[j])
  }

  lemma PathGrows(fat: seq<nat>, cs: seq<nat>, picks: seq<nat>)
    requires IsPath(fat, cs) && Appendable(fat, cs, picks) && picks != []
    ensures IsPath(fat[cs[|cs| - 1] := picks[0]], cs + [picks[0]])
    ensures Appendable(fat[cs[|cs| - 1] := picks[0]], cs + [picks[0]], picks[1..])
  {
    var cs1, rest := cs + [picks[0]], picks[1..];
    forall i | 0 <= i < |rest|
      ensures rest[i] !in cs1
    {
      assert rest[i] == picks[i + 1];
    }
    assert cs[|cs| - 1] in cs;
  }

  /** Linking free clusters to the end of a path makes one complete chain of them all. */
  lemma {:induction false} LinkedChain(fat: seq<nat>, cs: seq<nat>, picks: seq<nat>)
    requires IsPath(fat, cs) && Appendable(fat, cs, picks)
    ensures IsChain(Linked(fat, cs[|cs| - 1], picks), cs + picks)
    decreases |picks|
  {
    var last := cs[|cs| - 1];
    if picks == [] {
      assert cs + picks == cs;
    } else {
      PathGrows(fat, cs, picks);
      LinkedChain(fat[last := picks[0]], cs + [picks[0]], picks[1..]);
      assert cs + [picks[0]] + picks[1..] == cs + picks;
    }
  }

  /** Every pick uses up one free entry. */
  lemma {:induction false} LinkedFree(fat: seq<nat>, c: nat, picks: seq<nat>)
    requires |fat| <= MAX_CLUSTERS && 2 <= c < |fat|
    requires forall i :: 0 <= i < |picks| ==> 2 <= picks[i] < |fat| && fat[picks[i]] == 0 && picks[i] != c
    requires forall i, j :: 0 <= i < j < |picks| ==> picks[i] != picks[j]
    ensures FreeCount(Linked(fat, c, picks), 2) == FreeCount(fat, 2) - |picks| - if fat[c] == 0 then 1 else 0
    decreases |picks|
  {
    if picks == [] {
      FreeUpdate(fat, 2, c, END_OF_CHAIN);
    } else {
      FreeUpdate(fat, 2, c, picks[0]);
      LinkedFree(fat[c := picks[0]], picks[0], picks[1..]);
    }
  }

  /** What `ExtendCluster` does to a chain: the first `n` free clusters are appended to it. */
  ghost function Extended(fat: seq<nat>, last: nat, n: nat): (fat': seq<nat>)
    requires last < |fat| && FreeCount(fat, 2) >= n
    ensures |fat'| == |fat|
  {
    FirstFreePicked(fat, 2, n);
    Linked(fat, last, FirstFree(fat, 2, n))
  }

  /** Extending a chain by `n`: it becomes longer by `n` different clusters that were free, every other chain stays
      as it is, and exactly `n` entries fewer are free. */
  lemma ExtendChain(fat: seq<nat>, cs: seq<nat>, n: nat)
    requires |fat| <= MAX_CLUSTERS && IsChain(fat, cs) && FreeCount(fat, 2) >= n
    ensures var fat', picks := Extended(fat, cs[|cs| - 1], n), FirstFree(fat, 2, n);
      && IsChain(fat', cs + picks) && Picked(fat, 2, picks) && Disjoint(picks, cs)
      && FreeCount(fat', 2) == FreeCount(fat, 2) - n
      && (forall e :: 0 <= e < |fat| && e != cs[|cs| - 1] && e !in picks ==> fat'[e] == fat[e])
      && (forall ds :: IsChain(fat, ds) && Disjoint(ds, cs) ==> IsChain(fat', ds) && Disjoint(ds, cs + picks))
  {
    var last, picks := cs[|cs| - 1], FirstFree(fat, 2, n);
    var fat' := Extended(fat, last, n);
    FirstFreePicked(fat, 2, n);
    forall i | 0 <= i < |picks|
      ensures picks[i] !in cs
    {
      if picks[i] in cs {
        ChainNotFree(fat, cs, picks[i]);
      }
    }
    LinkedChain(fat, cs, picks);
    LinkedFree(fat, last, picks);
    forall e | 0 <= e < |fat| && e != last && e !in picks
      ensures fat'[e] == fat[e]
    {
      LinkedOthers(fat, last, picks, e);
    }
    forall ds | IsChain(fat, ds) && Disjoint(ds, cs)
      ensures IsChain(fat', ds) && Disjoint(ds, cs + picks)
    {
      OtherChain(fat, fat', ds, last, picks);
    }
  }

  lemma OtherChain(fat: seq<nat>, fat': seq<nat>, ds: seq<nat>, last: nat, picks: seq<nat>)
    requires IsChain(fat, ds) && |fat'| == |fat| && last !in ds
    requires forall i :: 0 <= i < |picks| ==> picks[i] < |fat| && fat[picks[i]] == 0
    requires forall e :: 0 <= e < |fat| && e != last && e !in picks ==> fat'[e] == fat[e]
    ensures IsChain(fat', ds) && Disjoint(ds, picks)
  {
    forall i | 0 <= i < |ds|
      ensures ds[i] !in picks && fat'[ds[i]] == fat[ds[i]]
    {
      assert ds[i] in ds;
      ChainNotFree(fat, ds, ds[i]);
    }
  }

  /** What `AllocateClusterChain` does: the first free clusters form a chain of their own. */
  lemma AllocateChain(fat: seq<nat>, n: nat)
    requires |fat| <= MAX_CLUSTERS && n > 0 && FreeCount(fat, 2) >= n
    ensures var picks := FirstFree(fat, 2, n);
      && picks[0] < |fat| && fat[picks[0]] == 0 && Picked(fat, 2, picks)
      && (var fat1 := fat[picks[0] := END_OF_CHAIN];
          && IsChain(fat1, picks[..1])
          && FreeCount(fat1, 2) == FreeCount(fat, 2) - 1
          && FirstFree(fat1, 2, n - 1) == picks[1..])
      && (forall ds :: IsChain(fat, ds) ==> IsChain(fat[picks[0] := END_OF_CHAIN], ds) && Disjoint(ds, picks[..1]))
  {
    var picks := FirstFree(fat, 2, n);
    FirstFreePicked(fat, 2, n);
    FreeUpdate(fat, 2, picks[0], END_OF_CHAIN);
    SkipFirst(fat, 2, n);
    forall ds | IsChain(fat, ds)
      ensures IsChain(fat[picks[0] := END_OF_CHAIN], ds) && Disjoint(ds, picks[..1])
    {
      if picks[0] in ds {
        ChainNotFree(fat, ds, picks[0]);
      }
    }
  }

  lemma {:induction false} SkipFirst(fat: seq<nat>, from: nat, n: nat)
    requires n > 0 && FreeCount(fat, from) >= n
    ensures var c := FirstFree(fat, from, n)[0];
      && from <= c < |fat|
      && FreeCount(fat[c := END_OF_CHAIN], from) >= n - 1
      && FirstFree(fat[c := END_OF_CHAIN], from, n - 1) == FirstFree(fat, from, n)[1..]
    decreases |fat| - from
  {
    var c := FirstFree(fat, from, n)[0];
    FirstFreePicked(fat, from, n);
    var fat1 := fat[c := END_OF_CHAIN];
    if fat[from] == 0 {
      FreeSame(fat, fat1, from + 1, n - 1);
      if n > 1 {
        assert FirstFree(fat1, from, n - 1) == FirstFree(fat1, from + 1, n - 1);
      }
    } else {
      SkipFirst(fat, from + 1, n);
    }
  }

  // ----- the loops of `ExtendCluster`

  lemma ChainStep(fat: seq<nat>, cs: seq<nat>, k: nat)
    requires |fat| <= MAX_CLUSTERS && IsChain(fat, cs) && k < |cs|
    ensures 2 <= cs[k] < |fat| && (IsEnd(fat[cs[k]]) <==> k == |cs| - 1)
    ensures k < |cs| - 1 ==> fat[cs[k]] == cs[k + 1]
  {
    assert k < |cs| - 1 ==> fat[cs[k]] == cs[k + 1] < |fat|;
  }

  /** `done` of the clusters are linked, `current` being the last of them, and the search has come to
      `candidate`. */
  ghost predicate Linking(fat0: seq<nat>, tail: nat, n: nat, fat: seq<nat>, current: nat, candidate: nat, done: nat) {
    && |fat| == |fat0| && tail < |fat| && current < |fat| && done <= n && candidate >= 2
    && FreeCount(fat0, 2) >= n && FreeCount(fat, candidate) >= n - done
    && (var picks := FirstFree(fat0, 2, n);
        && (forall i :: 0 <= i < |picks| ==> picks[i] < |fat|)
        && FirstFree(fat, candidate, n - done) == picks[done..]
        && Linked(fat, current, picks[done..]) == Extended(fat0, tail, n)
        && current == ([tail] + picks)[done])
    && (current < candidate || fat[current] != 0)
  }

  lemma LinkingStarts(fat: seq<nat>, tail: nat, n: nat)
    requires tail < |fat| && FreeCount(fat, 2) >= n && fat[tail] != 0
    ensures Linking(fat, tail, n, fat, tail, 2, 0)
  {
    FirstFreePicked(fat, 2, n);
    assert FirstFree(fat, 2, n)[0..] == FirstFree(fat, 2, n);
  }

  lemma LinkingStep(fat0: seq<nat>, tail: nat, n: nat, fat: seq<nat>, current: nat, candidate: nat, done: nat)
    requires Linking(fat0, tail, n, fat, current, candidate, done) && done < n
    ensures candidate < |fat|
    ensures if fat[candidate] == 0 then Linking(fat0, tail, n, fat[current := candidate], candidate, candidate + 1, done + 1)
            else Linking(fat0, tail, n, fat, current, candidate + 1, done)
  {
    if fat[candidate] == 0 {
      var picks := FirstFree(fat0, 2, n);
      assert picks[done..] == [candidate] + picks[done + 1..];
      assert picks[done..][1..] == picks[done + 1..];
      assert FirstFree(fat, candidate, n - done)[1..] == FirstFree(fat, candidate + 1, n - done - 1);
      FreeSame(fat, fat[current := candidate], candidate + 1, n - done - 1);
    }
  }

  lemma LinkingInTable(fat0: seq<nat>, tail: nat, n: nat, fat: seq<nat>, current: nat, candidate: nat, done: nat)
    requires Linking(fat0, tail, n, fat, current, candidate, done)
    ensures current < |fat|
  {}

  lemma LinkingEnds(fat0: seq<nat>, tail: nat, n: nat, fat: seq<nat>, current: nat, candidate: nat)
    requires Linking(fat0, tail, n, fat, current, candidate, n)
    ensures fat[current := END_OF_CHAIN] == Extended(fat0, tail, n)
    ensures current == ([tail] + FirstFree(fat0, 2, n))[n]
  {}

  /** The search of `ExtendCluster`: the table, the last cluster linked, and how many are. */
  datatype Search = Search(fat: seq<nat>, current: nat, done: nat)

  /** The search from the end `tail` of a chain, after it has looked at the entries below `candidate`. */
  function Searched(fat: seq<nat>, tail: nat, candidate: nat): (s: Search)
    requires tail < |fat| && 2 <= candidate <= |fat|
    ensures |s.fat| == |fat| && s.current < |fat|
  {
    if candidate == 2 then Search(fat, tail, 0)
    else
      var s := Searched(fat, tail, candidate - 1);
      if s.fat[candidate - 1] == 0 then Search(s.fat[s.current := candidate - 1], candidate - 1, s.done + 1) else s
  }

  /** Nothing is lost on the way: what was free has been linked or is still ahead. */
  lemma {:induction false} SearchedCounts(fat: seq<nat>, tail: nat, candidate: nat)
    requires tail < |fat| && 2 <= candidate <= |fat| && fat[tail] != 0
    ensures var s := Searched(fat, tail, candidate);
      && s.done + FreeCount(s.fat, candidate) == FreeCount(fat, 2)
      && (s.current < candidate || s.fat[s.current] != 0)
    decreases candidate
  {
    if candidate > 2 {
      SearchedCounts(fat, tail, candidate - 1);
      var s := Searched(fat, tail, candidate - 1);
      if s.fat[candidate - 1] == 0 {
        FreeSame(s.fat, s.fat[s.current := candidate - 1], candidate, 0);
      }
    }
  }

  /** The search passes the last entry of the table, before `n` clusters are linked, exactly when fewer are free. */
  lemma SearchLeavesTable(fat: seq<nat>, tail: nat, n: nat)
    requires tail < |fat| && 2 <= |fat| && fat[tail] != 0
    ensures (forall candidate :: 2 <= candidate <= |fat| ==> Searched(fat, tail, candidate).done < n) <==> FreeCount(fat, 2) < n
    ensures Searched(fat, tail, |fat|).done == FreeCount(fat, 2)
  {
    hide FreeCount;
    forall candidate | 2 <= candidate <= |fat|
      ensures Searched(fat, tail, candidate).done <= FreeCount(fat, 2)
    {
      SearchedCounts(fat, tail, candidate);
    }
    SearchedCounts(fat, tail, |fat|);
    NoneLeft(Searched(fat, tail, |fat|).fat);
  }

  lemma NoneLeft(fat: seq<nat>)
    ensures FreeCount(fat, |fat|) == 0
  {}

  lemma FirstFreeStep(fat: seq<nat>, from: nat, n: nat)
    requires n > 0 && FreeCount(fat, from) >= n
    ensures from < |fat|
    ensures if fat[from] == 0 then FirstFree(fat, from, n)[0] == from
            else FreeCount(fat, from + 1) >= n && FirstFree(fat, from + 1, n) == FirstFree(fat, from, n)
  {}

  /** Extending the chain of one newly allocated cluster. */
  lemma AllocateRest(fat: seq<nat>, n: nat)
    requires |fat| <= MAX_CLUSTERS && n > 0 && FreeCount(fat, 2) >= n
    ensures var cs := FirstFree(fat, 2, n);
      && cs[0] < |fat|
      && (var fat1 := fat[cs[0] := END_OF_CHAIN];
          && IsChain(fat1, [cs[0]])
          && FreeCount(fat1, 2) >= n - 1
          && var fat2 := Extended(fat1, cs[0], n - 1);
             && IsChain(fat2, cs) && Picked(fat, 2, cs)
             && FreeCount(fat2, 2) == FreeCount(fat, 2) - n
             && (forall e :: 0 <= e < |fat| && e !in cs ==> fat2[e] == fat[e])
             && (forall ds :: IsChain(fat, ds) ==> IsChain(fat2, ds) && Disjoint(ds, cs))
             && (n == 1 ==> fat2 == fat1))
  {
    hide IsChain, FirstFree, FreeCount, Extended, Picked;
    var cs := FirstFree(fat, 2, n);
    AllocateChain(fat, n);
    var fat1 := fat[cs[0] := END_OF_CHAIN];
    assert cs[..1] == [cs[0]] && cs == [cs[0]] + cs[1..];
    ExtendChain(fat1, [cs[0]], n - 1);
    ExtendedByNone(fat1, cs[0]);
    var fat2 := Extended(fat1, cs[0], n - 1);
    forall e | 0 <= e < |fat| && e !in cs
      ensures fat2[e] == fat[e]
    {
      assert e != cs[0] && e !in cs[1..];
    }
    forall ds | IsChain(fat, ds)
      ensures IsChain(fat2, ds) && Disjoint(ds, cs)
    {
      assert IsChain(fat1, ds) && Disjoint(ds, [cs[0]]);
    }
  }

  lemma ExtendedByNone(fat: seq<nat>, c: nat)
    requires c < |fat|
    ensures Extended(fat, c, 0) == fat[c := END_OF_CHAIN]
  {}
}
