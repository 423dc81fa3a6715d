/** The bytes that the clusters of a chain hold, one cluster after the other. */
module FatContents {
  import opened Basics
  import opened FatChains
  import opened FatVolume

  /** Where cluster number `k` of a chain begins. */
  function Start(k: nat, size: nat): nat {
    k * size
  }

  function Cluster<T>(data: seq<seq<T>>, c: nat): seq<T> {
    if c < |data| then data[c] else []
  }

  function Flat<T>(data: seq<seq<T>>, cs: seq<nat>): seq<T> {
    if cs == [] then [] else Flat(data, cs[..|cs| - 1]) + Cluster(data, cs[|cs| - 1])
  }

  /** Every cluster has the same size. */
  ghost predicate Sized<T>(data: seq<seq<T>>, size: nat) {
    size > 0 && forall c :: 0 <= c < |data| ==> |data[c]| == size
  }

  ghost predicate Within<T>(data: seq<seq<T>>, cs: seq<nat>) {
    forall i :: 0 <= i < |cs| ==> cs[i] < |data|
  }

  lemma StartNext(k: nat, size: nat)
    ensures Start(0, size) == 0 && Start(k + 1, size) == Start(k, size) + size
  {}

  lemma {:induction false} StartGrows(j: nat, k: nat, size: nat)
    requires j <= k
    ensures Start(j, size) <= Start(k, size)
    ensures j < k ==> Start(j, size) + size <= Start(k, size)
    decreases k
  {
    if j < k {
      StartGrows(j, k - 1, size);
      StartNext(k - 1, size);
    }
  }

  lemma {:induction false} FlatLength<T>(data: seq<seq<T>>, cs: seq<nat>, size: nat)
    requires Sized(data, size) && Within(data, cs)
    ensures |Flat(data, cs)| == Start(|cs|, size)
  {
    if cs == [] {
      StartNext(0, size);
    } else {
      FlatLength(data, cs[..|cs| - 1], size);
      StartNext(|cs| - 1, size);
    }
  }

  lemma Associative<T>(a: seq<T>, b: seq<T>, c: seq<T>)
    ensures a + b + c == a + (b + c)
  {}

  lemma {:induction false} FlatJoin<T>(data: seq<seq<T>>, cs: seq<nat>, ds: seq<nat>)
    ensures Flat(data, cs + ds) == Flat(data, cs) + Flat(data, ds)
    decreases |ds|
  {
    if ds == [] {
      assert cs + ds == cs;
    } else {
      var n := |ds| - 1;
      FlatJoin(data, cs, ds[..n]);
      var all := cs + ds;
      assert all[..|all| - 1] == cs + ds[..n] && all[|all| - 1] == ds[n];
      Associative(Flat(data, cs), Flat(data, ds[..n]), Cluster(data, ds[n]));
    }
  }

  lemma {:induction false} FlatSame<T>(data: seq<seq<T>>, data': seq<seq<T>>, cs: seq<nat>)
    requires forall c :: c in cs ==> Cluster(data', c) == Cluster(data, c)
    ensures Flat(data', cs) == Flat(data, cs)
  {
    if cs != [] {
      FlatSame(data, data', cs[..|cs| - 1]);
    }
  }

  /** The chain cut around its cluster number `k`. */
  lemma FlatAround<T>(data: seq<seq<T>>, cs: seq<nat>, k: nat, size: nat)
    requires Sized(data, size) && Within(data, cs) && k < |cs|
    ensures Flat(data, cs) == Flat(data, cs[..k]) + data[cs[k]] + Flat(data, cs[k + 1..])
    ensures |Flat(data, cs[..k])| == Start(k, size)
  {
    assert cs == cs[..k + 1] + cs[k + 1..];
    FlatJoin(data, cs[..k + 1], cs[k + 1..]);
    assert cs[..k + 1][..k] == cs[..k];
    FlatLength(data, cs[..k], size);
  }

  /** Bytes of one cluster are bytes of the chain. */
  lemma ReadChunk<T>(data: seq<seq<T>>, cs: seq<nat>, k: nat, off: nat, n: nat, size: nat)
    requires Sized(data, size) && Within(data, cs) && k < |cs| && off + n <= size
    ensures Start(k, size) + off + n <= |Flat(data, cs)|
    ensures data[cs[k]][off..off + n] == Flat(data, cs)[Start(k, size) + off..Start(k, size) + off + n]
  {
    FlatAround(data, cs, k, size);
  }

  function Patched<T>(before: seq<T>, off: nat, bytes: seq<T>): (r: seq<T>)
    requires off + |bytes| <= |before|
    ensures |r| == |before|
  {
    before[..off] + bytes + before[off + |bytes|..]
  }

  lemma ReplaceCluster<T>(data: seq<seq<T>>, cs: seq<nat>, k: nat, content: seq<T>, size: nat)
    requires Sized(data, size) && Within(data, cs) && k < |cs| && |content| == size
    requires forall i, j :: 0 <= i < j < |cs| ==> cs[i] != cs[j]
    ensures var data' := data[cs[k] := content];
      && Sized(data', size)
      && Flat(data', cs) == Flat(data, cs[..k]) + content + Flat(data, cs[k + 1..])
  {
    hide Flat;
    var data' := data[cs[k] := content];
    FlatAround(data', cs, k, size);
    FlatSame(data, data', cs[..k]);
    FlatSame(data, data', cs[k + 1..]);
  }

  /** Overwriting bytes of one cluster overwrites those bytes of the chain, and nothing else. */
  lemma WriteChunk<T>(data: seq<seq<T>>, cs: seq<nat>, k: nat, off: nat, bytes: seq<T>, size: nat)
    requires Sized(data, size) && Within(data, cs) && k < |cs| && off + |bytes| <= size
    requires forall i, j :: 0 <= i < j < |cs| ==> cs[i] != cs[j]
    ensures Start(k, size) + off + |bytes| <= |Flat(data, cs)|
    ensures var data' := data[cs[k] := Patched(data[cs[k]], off, bytes)];
      && Sized(data', size)
      && Flat(data', cs) == Patched(Flat(data, cs), Start(k, size) + off, bytes)
  {
    hide Flat, Patched, Start;
    FlatAround(data, cs, k, size);
    ReplaceCluster(data, cs, k, Patched(data[cs[k]], off, bytes), size);
    Splice(Flat(data, cs[..k]), data[cs[k]], Flat(data, cs[k + 1..]), off, bytes);
  }

  lemma Splice<T>(a: seq<T>, b: seq<T>, c: seq<T>, off: nat, bytes: seq<T>)
    requires off + |bytes| <= |b|
    ensures a + Patched(b, off, bytes) + c == Patched(a + b + c, |a| + off, bytes)
  {}

  /** Chains apart from `cs` keep their links and their bytes, and stay apart from what `cs` became. */
  ghost predicate OthersKept(fat: seq<nat>, data: seq<seq<Byte>>, cs: seq<nat>, fat': seq<nat>, data': seq<seq<Byte>>, cs': seq<nat>) {
    forall ds {:trigger IsChain(fat, ds)} {:trigger IsChain(fat', ds)} :: IsChain(fat, ds) && Disjoint(ds, cs) ==>
      IsChain(fat', ds) && Disjoint(ds, cs') && Flat(data', ds) == Flat(data, ds)
  }

  lemma OthersKeptSame(fat: seq<nat>, data: seq<seq<Byte>>, cs: seq<nat>)
    ensures OthersKept(fat, data, cs, fat, data, cs)
  {}

  lemma OthersKeptThen(fat: seq<nat>, data: seq<seq<Byte>>, cs: seq<nat>, fat': seq<nat>, data': seq<seq<Byte>>, cs': seq<nat>,
                       fat'': seq<nat>, data'': seq<seq<Byte>>, cs'': seq<nat>)
    requires OthersKept(fat, data, cs, fat', data', cs') && OthersKept(fat', data', cs', fat'', data'', cs'')
    ensures OthersKept(fat, data, cs, fat'', data'', cs'')
  {}

  lemma WriteKeepsOthers(fat: seq<nat>, data: seq<seq<Byte>>, cs: seq<nat>, k: nat, content: seq<Byte>)
    requires k < |cs| && cs[k] < |data|
    ensures OthersKept(fat, data, cs, fat, data[cs[k] := content], cs)
  {
    forall ds | IsChain(fat, ds) && Disjoint(ds, cs)
      ensures Flat(data[cs[k] := content], ds) == Flat(data, ds)
    {
      FlatSame(data, data[cs[k] := content], ds);
    }
  }

  lemma ExtendKeepsOthers(fat: seq<nat>, data: seq<seq<Byte>>, cs: seq<nat>, n: nat)
    requires |fat| <= MAX_CLUSTERS && IsChain(fat, cs) && FreeCount(fat, 2) >= n
    ensures OthersKept(fat, data, cs, Extended(fat, cs[|cs| - 1], n), data, cs + FirstFree(fat, 2, n))
  {
    ExtendChain(fat, cs, n);
  }
}
