/** The volume: a boot record, one FAT, the root directory and the data area, and the
    operations that copy files in and out, list and remove them. */
module FileSystem {
  import opened Common
  import opened Fat
  import opened RootDirectory
  import opened DataArea
  import BR = BootRecord

  // ---------------------------------------------------------------------------
  // File contents along a chain

  /** The bytes `copyFromSystem` reads along `chain` for a file of `size` bytes: from each
      cluster in turn, `min(clusterSize, bytes still to read)`. */
  function Gather(area: seq<bv8>, clusterSize: nat, clusterCount: nat, chain: seq<U16>, size: nat): (r: seq<bv8>)
    requires |area| == ClusterStart(clusterCount, clusterSize)
    ensures |r| <= size
    decreases |chain|
  {
    if chain == [] then []
    else
      var k := Min(clusterSize, size);
      ReadBytes(area, clusterSize, clusterCount, chain[0], k) + Gather(area, clusterSize, clusterCount, chain[1..], size - k)
  }

  /** One step of the read loop: the bytes from cluster `chain[k]` come first. */
  lemma GatherStep(area: seq<bv8>, clusterSize: nat, clusterCount: nat, chain: seq<U16>, k: nat, size: nat)
    requires |area| == ClusterStart(clusterCount, clusterSize)
    requires k < |chain|
    ensures var m := Min(clusterSize, size);
      Gather(area, clusterSize, clusterCount, chain[k..], size)
        == ReadBytes(area, clusterSize, clusterCount, chain[k], m) + Gather(area, clusterSize, clusterCount, chain[k + 1..], size - m)
  {
    assert chain[k..][1..] == chain[k + 1..];
  }

  /** One pass of the read loop keeps the buffer's filled part followed by what is still
      to be read equal to the whole file, and its unfilled part zero. */
  lemma ReadStep(area: seq<bv8>, clusterSize: nat, clusterCount: nat, chain: seq<U16>, k: nat, size: nat,
                 before: seq<bv8>, after: seq<bv8>, at: nat, m: nat, next: nat)
    requires |area| == ClusterStart(clusterCount, clusterSize)
    requires k < |chain| && at <= size == |before|
    requires before[..at] + Gather(area, clusterSize, clusterCount, chain[k..], size - at)
          == Gather(area, clusterSize, clusterCount, chain, size)
    requires before[at..] == Zeros(size - at)
    requires m == Min(clusterSize, size - at) && next == at + m
    requires after == Overwrite(before, at, ReadBytes(area, clusterSize, clusterCount, chain[k], m))
    ensures next <= size == |after|
    ensures after[..next] + Gather(area, clusterSize, clusterCount, chain[k + 1..], size - next)
         == Gather(area, clusterSize, clusterCount, chain, size)
    ensures after[next..] == Zeros(size - next)
  {
    var piece := ReadBytes(area, clusterSize, clusterCount, chain[k], m);
    var rest := Gather(area, clusterSize, clusterCount, chain[k + 1..], size - next);
    assert |piece| == m;
    GatherStep(area, clusterSize, clusterCount, chain, k, size - at);
    AccumulateStep(before, at, piece, rest, Gather(area, clusterSize, clusterCount, chain, size));
    ZerosDrop(before, at, m);
  }


  /** What `copyFromSystem` hands to the destination: the gathered bytes, then the zeros the
      `size`-byte buffer started with if the chain ends early. */
  function ReadBack(area: seq<bv8>, clusterSize: nat, clusterCount: nat, chain: seq<U16>, size: nat): (r: seq<bv8>)
    requires |area| == ClusterStart(clusterCount, clusterSize)
    ensures |r| == size
  {
    var g := Gather(area, clusterSize, clusterCount, chain, size);
    g + Zeros(size - |g|)
  }

  /** The data area after the write loop of `copyToSystem`: `data` cut into pieces of one
      cluster, piece `i` written to cluster `chain[i]`. */
  function StoreChain(area: seq<bv8>, clusterSize: nat, clusterCount: nat, chain: seq<U16>, data: seq<bv8>): (r: seq<bv8>)
    requires |area| == ClusterStart(clusterCount, clusterSize)
    ensures |r| == |area|
    decreases |chain|
  {
    if chain == [] then area
    else
      var k := Min(clusterSize, |data|);
      StoreChain(Written(area, clusterSize, clusterCount, chain[0], data, k), clusterSize, clusterCount, chain[1..], data[k..])
  }

  /** Storing along a chain leaves every cluster outside it as it was. */
  lemma {:induction false} StoreChainKeeps(area: seq<bv8>, clusterSize: nat, clusterCount: nat, chain: seq<U16>, data: seq<bv8>, x: nat, k: nat)
    requires |area| == ClusterStart(clusterCount, clusterSize)
    requires x !in chain
    ensures ReadBytes(StoreChain(area, clusterSize, clusterCount, chain, data), clusterSize, clusterCount, x, k)
         == ReadBytes(area, clusterSize, clusterCount, x, k)
    decreases |chain|
  {
    if chain != [] {
      var m := Min(clusterSize, |data|);
      var w := Written(area, clusterSize, clusterCount, chain[0], data, m);
      WritesDoNotInterfere(area, clusterSize, clusterCount, chain[0], data, m, x, k);
      StoreChainKeeps(w, clusterSize, clusterCount, chain[1..], data[m..], x, k);
    }
  }

  /** Storing one file leaves what any chain disjoint from its own reads unchanged. */
  lemma {:induction false} StoreChainKeepsOthers(area: seq<bv8>, clusterSize: nat, clusterCount: nat, chain: seq<U16>, data: seq<bv8>, other: seq<U16>, size: nat)
    requires |area| == ClusterStart(clusterCount, clusterSize)
    requires Disjoint(other, chain)
    ensures Gather(StoreChain(area, clusterSize, clusterCount, chain, data), clusterSize, clusterCount, other, size)
         == Gather(area, clusterSize, clusterCount, other, size)
    decreases |other|
  {
    if other != [] {
      var k := Min(clusterSize, size);
      var stored := StoreChain(area, clusterSize, clusterCount, chain, data);
      assert Disjoint(other[1..], chain) by {
        forall j | 0 <= j < |other| - 1 ensures other[1..][j] !in chain {
          assert other[1..][j] == other[j + 1];
        }
      }
      StoreChainKeeps(area, clusterSize, clusterCount, chain, data, other[0], k);
      StoreChainKeepsOthers(area, clusterSize, clusterCount, chain, data, other[1..], size - k);
      assert Gather(stored, clusterSize, clusterCount, other, size)
          == ReadBytes(stored, clusterSize, clusterCount, other[0], k) + Gather(stored, clusterSize, clusterCount, other[1..], size - k);
      assert Gather(area, clusterSize, clusterCount, other, size)
          == ReadBytes(area, clusterSize, clusterCount, other[0], k) + Gather(area, clusterSize, clusterCount, other[1..], size - k);
    }
  }

  /** Reading a file back along the chain it was stored on yields its bytes, provided the
      chain's clusters are distinct, inside the area, and hold the whole file. */
  lemma {:induction false} StoreThenGather(area: seq<bv8>, clusterSize: nat, clusterCount: nat, chain: seq<U16>, data: seq<bv8>)
    requires |area| == ClusterStart(clusterCount, clusterSize) && clusterSize >= 1
    requires forall k :: 0 <= k < |chain| ==> chain[k] < clusterCount
    requires Distinct(chain)
    requires |data| <= ClusterStart(|chain|, clusterSize)
    ensures Gather(StoreChain(area, clusterSize, clusterCount, chain, data), clusterSize, clusterCount, chain, |data|) == data
    decreases |chain|
  {
    if chain != [] {
      var m := Min(clusterSize, |data|);
      var w := Written(area, clusterSize, clusterCount, chain[0], data, m);
      DistinctTail(chain);
      assert |data[m..]| <= ClusterStart(|chain| - 1, clusterSize);
      StoreThenGather(w, clusterSize, clusterCount, chain[1..], data[m..]);
      StoreGatherStep(area, clusterSize, clusterCount, chain, data, m, w);
    }
  }

  /** Storing along a chain writes its first cluster, then stores the rest along the rest. */
  lemma StoreChainCons(area: seq<bv8>, clusterSize: nat, clusterCount: nat, chain: seq<U16>, data: seq<bv8>,
                       m: nat, w: seq<bv8>)
    requires |area| == ClusterStart(clusterCount, clusterSize) && |chain| >= 1
    requires m == Min(clusterSize, |data|) && w == Written(area, clusterSize, clusterCount, chain[0], data, m)
    ensures StoreChain(area, clusterSize, clusterCount, chain, data) == StoreChain(w, clusterSize, clusterCount, chain[1..], data[m..])
  {
  }

  /** Reading along a chain reads its first cluster, then the rest along the rest. */
  lemma GatherCons(area: seq<bv8>, clusterSize: nat, clusterCount: nat, chain: seq<U16>, size: nat, m: nat)
    requires |area| == ClusterStart(clusterCount, clusterSize) && |chain| >= 1
    requires m == Min(clusterSize, size)
    ensures Gather(area, clusterSize, clusterCount, chain, size)
         == ReadBytes(area, clusterSize, clusterCount, chain[0], m) + Gather(area, clusterSize, clusterCount, chain[1..], size - m)
  {
  }

  /** The first cluster of a chain gives back the first piece after the rest is stored, so
      reading the rest back correctly reads the whole file back correctly. */
  lemma StoreGatherStep(area: seq<bv8>, clusterSize: nat, clusterCount: nat, chain: seq<U16>, data: seq<bv8>,
                        m: nat, w: seq<bv8>)
    requires |area| == ClusterStart(clusterCount, clusterSize)
    requires |chain| >= 1 && chain[0] < clusterCount && chain[0] !in chain[1..]
    requires m == Min(clusterSize, |data|) && w == Written(area, clusterSize, clusterCount, chain[0], data, m)
    requires Gather(StoreChain(w, clusterSize, clusterCount, chain[1..], data[m..]), clusterSize, clusterCount, chain[1..], |data| - m)
          == data[m..]
    ensures Gather(StoreChain(area, clusterSize, clusterCount, chain, data), clusterSize, clusterCount, chain, |data|) == data
  {
    var s := StoreChain(w, clusterSize, clusterCount, chain[1..], data[m..]);
    StoreChainCons(area, clusterSize, clusterCount, chain, data, m, w);
    GatherCons(s, clusterSize, clusterCount, chain, |data|, m);
    StoreChainKeeps(w, clusterSize, clusterCount, chain[1..], data[m..], chain[0], m);
    WriteThenRead(area, clusterSize, clusterCount, chain[0], data, m);
    assert Gather(s, clusterSize, clusterCount, chain, |data|) == data[..m] + data[m..];
    TakeDrop(data, m);
  }


  // ---------------------------------------------------------------------------
  // How many clusters a file needs

  /** The number of pieces of at most `clusterSize` bytes a `size`-byte file is cut into. */
  function ClustersFor(size: nat, clusterSize: nat): nat
    requires clusterSize >= 1
    decreases size
  {
    if size == 0 then 0 else 1 + ClustersFor(size - Min(clusterSize, size), clusterSize)
  }

  lemma DivUnique(a: nat, d: nat, q: nat, r: nat)
    requires d >= 1 && r < d && a == q * d + r
    ensures a / d == q && a % d == r
  {
    var q', r' := a / d, a % d;
    assert a == q' * d + r';
    if q' > q {
      BR.MulMono(q + 1, q', d);
      MulSucc(q, d);
    } else if q' < q {
      BR.MulMono(q' + 1, q, d);
      MulSucc(q', d);
    }
  }

  /** The count of pieces is the rounded-up quotient `copyToSystem` computes. */
  lemma {:induction false} ClustersForIsCeilDiv(size: nat, clusterSize: nat)
    requires clusterSize >= 1
    ensures ClustersFor(size, clusterSize) == (size + clusterSize - 1) / clusterSize
    decreases size
  {
    if size > clusterSize {
      ClustersForIsCeilDiv(size - clusterSize, clusterSize);
    }
    CeilDivStep(size, clusterSize);
  }

  /** Taking one cluster off a file of more than one cluster takes one off the rounded-up
      quotient; a file of one cluster or less needs one, an empty one none. */
  lemma CeilDivStep(size: nat, clusterSize: nat)
    requires clusterSize >= 1
    ensures size == 0 ==> (size + clusterSize - 1) / clusterSize == 0
    ensures 1 <= size <= clusterSize ==> (size + clusterSize - 1) / clusterSize == 1
    ensures size > clusterSize ==>
      (size + clusterSize - 1) / clusterSize == 1 + (size - clusterSize + clusterSize - 1) / clusterSize
  {
    if size == 0 {
      DivUnique(clusterSize - 1, clusterSize, 0, clusterSize - 1);
    } else if size <= clusterSize {
      DivUnique(size + clusterSize - 1, clusterSize, 1, size - 1);
    } else {
      var q, r := (size - 1) / clusterSize, (size - 1) % clusterSize;
      DivUnique(size - 1, clusterSize, q, r);
      MulSucc(q, clusterSize);
      DivUnique(size + clusterSize - 1, clusterSize, q + 1, r);
    }
  }


  /** A non-empty file needs at least one cluster, its clusters hold it with less than one
      cluster to spare, and the last one holds `size % clusterSize` bytes, or a full cluster
      when that remainder is zero. */
  lemma ClustersForFacts(size: nat, clusterSize: nat)
    requires size >= 1 && clusterSize >= 1
    ensures var n := ClustersFor(size, clusterSize);
      && n >= 1
      && (n - 1) * clusterSize < size <= n * clusterSize
      && size - (n - 1) * clusterSize == (if size % clusterSize != 0 then size % clusterSize else clusterSize)
  {
    ClustersForIsCeilDiv(size, clusterSize);
    CeilDivFacts(size, clusterSize, ClustersFor(size, clusterSize));
  }

  lemma CeilDivFacts(size: nat, clusterSize: nat, n: nat)
    requires size >= 1 && clusterSize >= 1
    requires n == (size + clusterSize - 1) / clusterSize
    ensures n >= 1
    ensures (n - 1) * clusterSize < size <= n * clusterSize
    ensures size - (n - 1) * clusterSize == (if size % clusterSize != 0 then size % clusterSize else clusterSize)
  {
    var q, r := size / clusterSize, size % clusterSize;
    assert size == q * clusterSize + r;
    MulSucc(q, clusterSize);
    if r == 0 {
      DivUnique(size + clusterSize - 1, clusterSize, q, clusterSize - 1);
      assert q >= 1;
      MulSucc(q - 1, clusterSize);
    } else {
      DivUnique(size + clusterSize - 1, clusterSize, q + 1, r - 1);
    }
  }


  /** `sizeToWrite` for cluster `i` of `n`: a whole cluster, except the last, which gets
      `size % clusterSize` bytes, or a whole cluster when that remainder is zero. */
  function SizeToWrite(i: nat, n: nat, size: nat, clusterSize: nat): nat
    requires clusterSize >= 1
  {
    if i == n - 1 then (if size % clusterSize != 0 then size % clusterSize else clusterSize)
    else clusterSize
  }

  /** Write `i` of a `size`-byte file starts inside the file at `i * clusterSize` and stores
      the bytes left, up to one cluster: a whole cluster before the last, the rest at the last. */
  lemma SizeToWriteIsRest(i: nat, size: nat, clusterSize: nat)
    requires size >= 1 && clusterSize >= 1
    requires i < ClustersFor(size, clusterSize)
    ensures var n := ClustersFor(size, clusterSize);
      var w := SizeToWrite(i, n, size, clusterSize);
      && i * clusterSize < size
      && w == Min(clusterSize, size - i * clusterSize)
      && i * clusterSize + w == (if i < n - 1 then (i + 1) * clusterSize else size)
  {
    var n := ClustersFor(size, clusterSize);
    ClustersForFacts(size, clusterSize);
    BR.MulMono(i, n - 1, clusterSize);
    MulSucc(i, clusterSize);
    if i < n - 1 {
      BR.MulMono(i + 1, n - 1, clusterSize);
    }
  }

  /** `sizeToWrite` for piece `i` of the `n` a `size`-byte file needs, computed as the source
      computes it: the bytes left from offset `i * clusterSize`, up to one cluster. */
  method SizeToWriteAt(i: nat, n: nat, size: nat, clusterSize: U32, ghost offset: nat) returns (sizeToWrite: U32)
    requires clusterSize >= 1 && i < n
    requires ClusterStart(n - 1, clusterSize) < size <= ClusterStart(n, clusterSize)
    requires offset == ClusterStart(i, clusterSize)
    ensures sizeToWrite == Min(clusterSize, size - offset)
  {
    OffsetsGiveClustersFor(size, clusterSize, n);
    SizeToWriteIsRest(i, size, clusterSize);
    ClusterStartIsProduct(i, clusterSize);
    sizeToWrite := SizeToWrite(i, n, size, clusterSize);
  }

  /** The clusters `copyToSystem` asks for hold the file with less than one cluster to spare. */
  lemma ClustersForOffsets(size: nat, clusterSize: nat)
    requires size >= 1 && clusterSize >= 1
    ensures var n := ClustersFor(size, clusterSize);
      n >= 1 && ClusterStart(n - 1, clusterSize) < size <= ClusterStart(n, clusterSize)
  {
    var n := ClustersFor(size, clusterSize);
    ClustersForFacts(size, clusterSize);
    ClusterStartIsProduct(n - 1, clusterSize);
    ClusterStartIsProduct(n, clusterSize);
  }

  /** Conversely, a count of clusters that holds the file with less than one to spare is the
      count `copyToSystem` asks for. */
  lemma OffsetsGiveClustersFor(size: nat, clusterSize: nat, n: nat)
    requires clusterSize >= 1 && n >= 1
    requires ClusterStart(n - 1, clusterSize) < size <= ClusterStart(n, clusterSize)
    ensures n == ClustersFor(size, clusterSize)
  {
    ClusterStartIsProduct(n - 1, clusterSize);
    MulSucc(n - 1, clusterSize);
    var r := size - (n - 1) * clusterSize - 1;
    assert size + clusterSize - 1 == n * clusterSize + r;
    DivUnique(size + clusterSize - 1, clusterSize, n, r);
    ClustersForIsCeilDiv(size, clusterSize);
  }

  /** The cluster count `copyToSystem` asks for, as it computes it. */
  method ClustersNeeded(fileSize: U32, clusterSize: U32) returns (n: U32)
    requires clusterSize >= 1 && fileSize + clusterSize - 1 < U32Modulus
    ensures n == ClustersFor(fileSize, clusterSize)
  {
    ClustersForIsCeilDiv(fileSize, clusterSize);
    n := (fileSize + clusterSize - 1) / clusterSize;
  }

  /** One pass of the write loop: once piece `i`, the bytes left up to one cluster from offset
      `i * clusterSize`, is written, storing the pieces after it gives what storing from
      piece `i` on would have. */
  lemma WriteStep(before: seq<bv8>, after: seq<bv8>, clusterSize: nat, clusterCount: nat, chain: seq<U16>, data: seq<bv8>,
                  i: nat, pos: nat, w: nat, next: nat, total: seq<bv8>)
    requires |before| == ClusterStart(clusterCount, clusterSize) && clusterSize >= 1
    requires 1 <= |chain| && ClusterStart(|chain| - 1, clusterSize) < |data| <= ClusterStart(|chain|, clusterSize)
    requires i < |chain| && pos == ClusterStart(i, clusterSize) && pos <= |data|
    requires w == Min(clusterSize, |data| - pos) && next == pos + w
    requires StoreChain(before, clusterSize, clusterCount, chain[i..], data[pos..]) == total
    requires after == Written(before, clusterSize, clusterCount, chain[i], data[pos..], w)
    ensures next <= |data|
    ensures i + 1 < |chain| ==> next == ClusterStart(i + 1, clusterSize)
    ensures i + 1 == |chain| ==> next == |data|
    ensures StoreChain(after, clusterSize, clusterCount, chain[i + 1..], data[next..]) == total
  {
    if i + 1 < |chain| {
      ClusterStartMono(i + 1, |chain| - 1, clusterSize);
    }
    assert chain[i..][1..] == chain[i + 1..];
    assert data[pos..][w..] == data[next..];
  }

  // ---------------------------------------------------------------------------
  // Consistency of directory, table and chains

  /** No cluster of `a` belongs to `b`. */
  predicate Disjoint(a: seq<U16>, b: seq<U16>) {
    forall k :: 0 <= k < |a| ==> a[k] !in b
  }

  predicate Occupied(es: seq<RootEntry>, i: int) {
    0 <= i < |es| && !IsEmptySlot(es[i])
  }

  /** Every occupied slot owns a chain of the table starting at its first cluster, and no
      two occupied slots share a cluster. */
  ghost predicate Consistent(t: seq<U16>, es: seq<RootEntry>, chains: seq<seq<U16>>) {
    && |t| < MaxClusters
    && |chains| == |es|
    && (forall i :: Occupied(es, i) ==> IsChain(t, chains[i]) && chains[i][0] == es[i].startCluster)
    && (forall i, j :: Occupied(es, i) && Occupied(es, j) && i != j ==> Disjoint(chains[i], chains[j]))
  }

  /** The clusters `allocateClusters` hands out belong to no file, and the files' chains
      survive the allocation. */
  lemma AllocateKeepsConsistent(t: seq<U16>, es: seq<RootEntry>, chains: seq<seq<U16>>, n: nat)
    requires Consistent(t, es, chains)
    requires 1 <= n <= |FreeFrom(t, 0)|
    ensures Consistent(Allocated(t, n), es, chains)
    ensures forall i :: Occupied(es, i) ==> Disjoint(chains[i], FirstFree(t, n)) && Disjoint(FirstFree(t, n), chains[i])
  {
    var cs := FirstFree(t, n);
    var u := Allocated(t, n);
    FirstFitIsLowest(t, n);
    LinkChainMakesChain(t, cs);
    forall i | Occupied(es, i)
      ensures IsChain(u, chains[i])
      ensures Disjoint(chains[i], cs) && Disjoint(cs, chains[i])
    {
      ChainNotFree(t, chains[i]);
      assert Disjoint(chains[i], cs);
      ChainSurvives(t, u, chains[i]);
    }
  }

  /** Filling the first empty slot with a file whose chain is fresh keeps the volume
      consistent, whether or not the name leaves the slot looking occupied. */
  lemma AddKeepsConsistent(t: seq<U16>, es: seq<RootEntry>, chains: seq<seq<U16>>, cs: seq<U16>, name: seq<char>, size: U32, now: U32)
    requires Consistent(t, es, chains)
    requires IsChain(t, cs)
    requires forall i :: Occupied(es, i) ==> Disjoint(chains[i], cs) && Disjoint(cs, chains[i])
    requires FirstEmpty(es).Some?
    ensures var slot := FirstEmpty(es).value;
      Consistent(t, es[slot := NewEntry(name, size, cs[0], now)], chains[slot := cs])
  {
  }

  /** Clearing an occupied slot and freeing its chain keeps the volume consistent. */
  lemma RemoveKeepsConsistent(t: seq<U16>, es: seq<RootEntry>, chains: seq<seq<U16>>, i: nat)
    requires Consistent(t, es, chains)
    requires Occupied(es, i)
    ensures Consistent(Cleared(t, chains[i]), es[i := Zeroed], chains[i := []])
  {
    ZeroedMatchesOnlyEmptyName([]);
    var u := Cleared(t, chains[i]);
    forall j | Occupied(es[i := Zeroed], j)
      ensures IsChain(u, chains[j])
    {
      ChainSurvives(t, u, chains[j]);
    }
  }

  /** Storing a file on clusters no file owns leaves every file's contents as they were. */
  lemma StoreKeepsFiles(area: seq<bv8>, clusterSize: nat, clusterCount: nat, t: seq<U16>, es: seq<RootEntry>,
                        chains: seq<seq<U16>>, clusters: seq<U16>, data: seq<bv8>)
    requires |area| == ClusterStart(clusterCount, clusterSize)
    requires |chains| == |es|
    requires forall i :: Occupied(es, i) ==> Disjoint(chains[i], clusters)
    ensures forall i :: Occupied(es, i) ==>
      ReadBack(StoreChain(area, clusterSize, clusterCount, clusters, data), clusterSize, clusterCount, chains[i], es[i].fileSize)
        == ReadBack(area, clusterSize, clusterCount, chains[i], es[i].fileSize)
  {
    forall i | Occupied(es, i)
      ensures ReadBack(StoreChain(area, clusterSize, clusterCount, clusters, data), clusterSize, clusterCount, chains[i], es[i].fileSize)
           == ReadBack(area, clusterSize, clusterCount, chains[i], es[i].fileSize)
    {
      StoreChainKeepsOthers(area, clusterSize, clusterCount, clusters, data, chains[i], es[i].fileSize);
    }
  }

  // ---------------------------------------------------------------------------
  // Removing the empty name, as the source does it

  /** `removeFile(name)` without the empty-name check: the first matching slot's chain is
      walked from its first cluster and freed, and that slot is cleared. */
  ghost function RemoveAsWritten(t: seq<U16>, es: seq<RootEntry>, name: seq<char>): Option<(seq<U16>, seq<RootEntry>)>
    requires FirstMatch(es, name).Some? ==> WalkEnds(t, es[FirstMatch(es, name).value].startCluster)
  {
    match FirstMatch(es, name)
    case None => None
    case Some(i) => Some((Cleared(t, WalkFrom(t, es[i].startCluster)), es[i := Zeroed]))
  }

  /** Removing the empty name while a file starts at cluster 0 and the first empty slot
      holds cluster 0 (as a cleared slot does) frees that file's clusters and keeps its
      slot: no assignment of chains makes the result consistent. */
  lemma EmptyNameRemovalBreaksFile(t: seq<U16>, es: seq<RootEntry>, chains: seq<seq<U16>>, i: nat)
    requires Consistent(t, es, chains) && Occupied(es, i) && es[i].startCluster == 0
    requires FirstEmpty(es).Some? && es[FirstEmpty(es).value].startCluster == 0
    ensures WalkEnds(t, 0)
    ensures FirstMatch(es, []) == FirstEmpty(es)
    ensures var r := RemoveAsWritten(t, es, []);
      && r.Some? && Occupied(r.value.1, i) && r.value.1[i].startCluster == 0 && r.value.0[0] == Free
      && forall other :: !Consistent(r.value.0, r.value.1, other)
  {
    EmptyNameFindsFirstEmpty(es, []);
    ChainWalkEnds(t, chains[i]);
    var r := RemoveAsWritten(t, es, []).value;
    assert chains[i][0] == 0;
    forall other
      ensures !Consistent(r.0, r.1, other)
    {
      if |other| == |r.1| && IsChain(r.0, other[i]) {
        ChainNotFree(r.0, other[i]);
        assert r.0[other[i][0]] != Free;
      }
    }
  }

  /** `copyFromSystem("")` and `removeFile("")` without the empty-name check: the lookup lands
      on the first empty slot, and when that slot holds cluster 0 (as a cleared slot does)
      while cluster 0 is FREE (as on a freshly formatted volume), the walk from it never
      reaches EOF, so neither loop ends. */
  lemma EmptyNameWalkNeverEnds(t: seq<U16>, es: seq<RootEntry>, fuel: nat)
    requires |t| >= 1 && t[0] == Free
    requires FirstEmpty(es).Some? && es[FirstEmpty(es).value].startCluster == 0
    ensures FirstMatch(es, []) == FirstEmpty(es)
    ensures Walk(t, es[FirstMatch(es, []).value].startCluster, fuel) == None
  {
    EmptyNameFindsFirstEmpty(es, []);
    FreeZeroNeverEnds(t, fuel);
  }

  // ---------------------------------------------------------------------------
  // The volume

  class FileSystem {
    var bootRecord: BR.BootRecordManager
    var fat: FatManager?
    var rootDir: RootDirectoryManager?
    var dataArea: DataAreaManager?
    /** The cluster chain each slot owns; meaningful for the occupied slots. */
    ghost var chains: seq<seq<U16>>

    /** A formatted volume: its three managers exist, the table has one entry per cluster
        of the data area, and directory, table and chains are consistent. */
    ghost predicate Valid()
      reads this, bootRecord, fat, rootDir, dataArea
    {
      && fat != null && rootDir != null && dataArea != null
      && dataArea.Valid()
      && |fat.table| == dataArea.clusterCount
      && dataArea.clusterSize == BR.BytesPerSector * bootRecord.bootRecord.sectorsPerCluster
      && dataArea.clusterSize >= 1
      && Consistent(fat.table, rootDir.entries, chains)
    }

    /** The bytes `copyFromSystem` yields for the file in slot `i`. */
    ghost function Contents(i: nat): seq<bv8>
      requires Valid() && i < |rootDir.entries|
      reads this, bootRecord, fat, rootDir, dataArea, dataArea.dataArea
    {
      ReadBack(dataArea.dataArea[..], dataArea.clusterSize, dataArea.clusterCount, chains[i], rootDir.entries[i].fileSize)
    }

    /** A volume before `format`: a default boot record and no FAT, directory or data area. */
    constructor ()
      ensures fresh(bootRecord) && bootRecord.bootRecord == BR.Default
      ensures fat == null && rootDir == null && dataArea == null
    {
      bootRecord := new BR.BootRecordManager();
      fat := null;
      rootDir := null;
      dataArea := null;
      chains := [];
    }

    /** Writes a fresh boot record and creates an all-FREE table, an all-empty directory and
        a zeroed data area, all sized from the data sectors left after the boot and
        root-directory sectors. The FAT's own sectors are not set aside, so the data area
        can end past the volume, by at most those sectors. */
    method Format(totalSectors: U32, rootEntryCount: U16, sectorsPerCluster: U8) returns (ok: bool)
      requires sectorsPerCluster >= 1
      requires BR.Clusters(totalSectors, rootEntryCount, sectorsPerCluster) < MaxClusters
      requires BR.BytesPerSector * sectorsPerCluster * BR.Clusters(totalSectors, rootEntryCount, sectorsPerCluster) < U32Modulus
      modifies this, bootRecord
      ensures Valid() && ok
      ensures bootRecord == old(bootRecord)
      ensures bootRecord.bootRecord == BR.Formatted(totalSectors, rootEntryCount, sectorsPerCluster)
      ensures fresh(fat) && fresh(rootDir) && fresh(dataArea) && fresh(dataArea.dataArea)
      ensures |fat.table| == BR.Clusters(totalSectors, rootEntryCount, sectorsPerCluster)
      ensures BR.DataAreaOffset(bootRecord.bootRecord) + dataArea.dataArea.Length
        == BR.DataAreaEnd(totalSectors, rootEntryCount, sectorsPerCluster)
      ensures totalSectors >= BR.ReservedSectors + BR.RootDirSectors(rootEntryCount) ==>
        BR.DataAreaOffset(bootRecord.bootRecord) + dataArea.dataArea.Length
          <= (totalSectors + bootRecord.bootRecord.sectorsPerFAT) * BR.BytesPerSector
      ensures (&& sectorsPerCluster == 1 && |fat.table| >= 1
               && totalSectors >= BR.ReservedSectors + BR.RootDirSectors(rootEntryCount)) ==>
        BR.DataAreaOffset(bootRecord.bootRecord) + dataArea.dataArea.Length > totalSectors * BR.BytesPerSector
      ensures forall c :: 0 <= c < |fat.table| ==> fat.table[c] == Free
      ensures |rootDir.entries| == rootEntryCount
      ensures forall i :: 0 <= i < |rootDir.entries| ==> rootDir.entries[i] == Zeroed
      ensures dataArea.clusterSize == BR.BytesPerSector * sectorsPerCluster
      ensures dataArea.dataArea.Length == dataArea.clusterSize * |fat.table|
      ensures dataArea.dataArea[..] == Zeros(dataArea.dataArea.Length)
    {
      bootRecord.Format(totalSectors, rootEntryCount, sectorsPerCluster);
      var rootDirSectors := (rootEntryCount * BR.EntryBytes + BR.BytesPerSector - 1) / BR.BytesPerSector;
      var dataSectors := (totalSectors - BR.ReservedSectors - rootDirSectors) % U32Modulus;
      var clusterCount: U32 := dataSectors / sectorsPerCluster;
      fat := new FatManager(clusterCount);
      fat.Initialize();
      rootDir := new RootDirectoryManager(rootEntryCount);
      rootDir.Initialize();
      var clusterSize: U32 := BR.BytesPerSector * sectorsPerCluster;
      dataArea := new DataAreaManager(clusterSize, clusterCount);
      chains := seq(rootEntryCount, _ => []);
      ZeroedMatchesOnlyEmptyName([]);
      BR.MulComm(sectorsPerCluster, clusterCount);
      if totalSectors >= BR.ReservedSectors + rootDirSectors {
        BR.DataAreaOverrunBound(totalSectors, rootEntryCount, sectorsPerCluster);
        if sectorsPerCluster == 1 && clusterCount >= 1 {
          BR.DataAreaPastImage(totalSectors, rootEntryCount);
        }
      }
      ok := true;
    }

    /** Reads the file named `name` along its chain; an empty name or one no slot matches
        reports failure. */
    method CopyFromSystem(name: seq<char>) returns (ok: bool, out: seq<bv8>)
      requires Valid()
      ensures ok <==> CStr(name) != [] && FirstMatch(rootDir.entries, name).Some?
      ensures ok ==> out == Contents(FirstMatch(rootDir.entries, name).value)
      ensures !ok ==> out == []
    {
      CStrUnfold(name);
      if CharAt(name, 0) == Nul {
        return false, [];
      }
      var found := rootDir.FindFile(name);
      if found.None? {
        return false, [];
      }
      var slot := found.value;
      FirstMatchIs(rootDir.entries, name, slot);
      MatchedSlotOccupied(rootDir.entries[slot], name);
      var entry := rootDir.entries[slot];
      out := ReadChain(entry.startCluster, entry.fileSize, chains[slot]);
      ok := true;
    }

    /** The read loop of `copyFromSystem`: follows the table from `start` until EOF, reading
        `min(clusterSize, bytes still to read)` bytes of each cluster into a zeroed buffer of
        `size` bytes. */
    method ReadChain(start: U16, size: U32, ghost chain: seq<U16>) returns (out: seq<bv8>)
      requires fat != null && dataArea != null && dataArea.Valid() && dataArea.clusterSize >= 1
      requires |fat.table| == dataArea.clusterCount < MaxClusters
      requires |chain| >= 1 && chain[0] == start && InTable(fat.table, chain)
      requires forall k :: 0 <= k < |chain| - 1 ==> fat.table[chain[k]] == chain[k + 1]
      requires fat.table[chain[|chain| - 1]] == Eof
      ensures out == ReadBack(dataArea.dataArea[..], dataArea.clusterSize, dataArea.clusterCount, chain, size)
    {
      var clusterSize := dataArea.GetClusterSize();
      var buffer := new bv8[size](_ => 0);
      var cluster := start;
      var bytesRead: nat := 0;
      ghost var area := dataArea.dataArea[..];
      ghost var count := dataArea.clusterCount;
      ghost var k := 0;
      while cluster != Eof
        invariant 0 <= k <= |chain|
        invariant cluster == if k < |chain| then chain[k] else Eof
        invariant bytesRead <= size == buffer.Length
        invariant buffer[..bytesRead] + Gather(area, clusterSize, count, chain[k..], size - bytesRead)
               == Gather(area, clusterSize, count, chain, size)
        invariant buffer[bytesRead..] == Zeros(size - bytesRead)
        decreases |chain| - k
      {
        var sizeToRead: U32 := Min(clusterSize, size - bytesRead);
        ghost var before := buffer[..];
        dataArea.ReadData(cluster, buffer, bytesRead, sizeToRead);
        var next := bytesRead + sizeToRead;
        ReadStep(area, clusterSize, count, chain, k, size, before, buffer[..], bytesRead, sizeToRead, next);
        bytesRead := next;
        cluster := fat.GetNextCluster(cluster);
        k := k + 1;
      }
      TakeDrop(buffer[..], bytesRead);
      out := buffer[..];
    }

    /** Stores `data` in a fresh file named `name`: allocates the clusters it needs, writes it
        a cluster at a time and fills the first empty slot. An empty file is refused; with too
        few FREE clusters nothing changes; with no empty slot the clusters, already written,
        are freed again. A short name no slot held is found afterwards in the new slot, whose
        contents are `data`: what `CopyFromSystem` then reads back. */
    method CopyToSystem(data: seq<bv8>, name: seq<char>, now: U32) returns (ok: bool)
      requires Valid()
      requires |data| + dataArea.clusterSize - 1 < U32Modulus
      modifies this, fat, rootDir, dataArea.dataArea
      ensures Valid()
      ensures fat == old(fat) && rootDir == old(rootDir) && dataArea == old(dataArea) && bootRecord == old(bootRecord)
      ensures var n := ClustersFor(|data|, dataArea.clusterSize);
        ok <==> |data| >= 1 && n <= |FreeFrom(old(fat.table), 0)| && FirstEmpty(old(rootDir.entries)).Some?
      ensures var n := ClustersFor(|data|, dataArea.clusterSize);
        ok ==> var slot := FirstEmpty(old(rootDir.entries)).value;
          var clusters := FirstFree(old(fat.table), n);
          && fat.table == Allocated(old(fat.table), n)
          && rootDir.entries == old(rootDir.entries)[slot := NewEntry(name, |data|, clusters[0], now)]
          && chains == old(chains)[slot := clusters]
          && Contents(slot) == data
      ensures !ok ==> fat.table == old(fat.table) && rootDir.entries == old(rootDir.entries) && chains == old(chains)
      ensures var n := ClustersFor(|data|, dataArea.clusterSize);
        dataArea.dataArea[..] ==
          if |data| >= 1 && n <= |FreeFrom(old(fat.table), 0)|
          then StoreChain(old(dataArea.dataArea[..]), dataArea.clusterSize, dataArea.clusterCount, FirstFree(old(fat.table), n), data)
          else old(dataArea.dataArea[..])
      ensures forall j :: Occupied(old(rootDir.entries), j) ==>
        j < |rootDir.entries| && rootDir.entries[j] == old(rootDir.entries)[j] && Contents(j) == old(Contents(j))
      ensures ok && IsShortName(name) && FirstMatch(old(rootDir.entries), name).None? ==>
        FirstMatch(rootDir.entries, name) == FirstEmpty(old(rootDir.entries))
    {
      var fileSize: U32 := |data|;
      if fileSize == 0 {
        return false;
      }
      var clusterSize := dataArea.GetClusterSize();
      var clustersNeeded := ClustersNeeded(fileSize, clusterSize);
      ghost var t0, es0 := fat.table, rootDir.entries;
      ok := StoreFile(data, name, now, clustersNeeded);
      if ok && IsShortName(name) && FirstMatch(es0, name).None? {
        AddThenFind(es0, name, fileSize, FirstFree(t0, clustersNeeded)[0], now);
      }
    }

    /** `copyToSystem` from the allocation on, for a non-empty file needing `n` clusters. */
    method StoreFile(data: seq<bv8>, name: seq<char>, now: U32, n: U32) returns (ok: bool)
      requires Valid()
      requires 1 <= |data| < U32Modulus && n == ClustersFor(|data|, dataArea.clusterSize)
      modifies this, fat, rootDir, dataArea.dataArea
      ensures Valid()
      ensures fat == old(fat) && rootDir == old(rootDir) && dataArea == old(dataArea) && bootRecord == old(bootRecord)
      ensures ok <==> n <= |FreeFrom(old(fat.table), 0)| && FirstEmpty(old(rootDir.entries)).Some?
      ensures ok ==> var slot := FirstEmpty(old(rootDir.entries)).value;
          var clusters := FirstFree(old(fat.table), n);
          && fat.table == Allocated(old(fat.table), n)
          && rootDir.entries == old(rootDir.entries)[slot := NewEntry(name, |data|, clusters[0], now)]
          && chains == old(chains)[slot := clusters]
          && Contents(slot) == data
      ensures !ok ==> fat.table == old(fat.table) && rootDir.entries == old(rootDir.entries) && chains == old(chains)
      ensures dataArea.dataArea[..] ==
          if n <= |FreeFrom(old(fat.table), 0)|
          then StoreChain(old(dataArea.dataArea[..]), dataArea.clusterSize, dataArea.clusterCount, FirstFree(old(fat.table), n), data)
          else old(dataArea.dataArea[..])
      ensures forall j :: Occupied(old(rootDir.entries), j) ==>
        j < |rootDir.entries| && rootDir.entries[j] == old(rootDir.entries)[j] && Contents(j) == old(Contents(j))
    {
      ClustersForOffsets(|data|, dataArea.clusterSize);
      ghost var t0, es0 := fat.table, rootDir.entries;
      if n <= |FreeFrom(t0, 0)| {
        FirstFitIsLowest(t0, n);
        AllocateKeepsConsistent(t0, es0, chains, n);
      }
      var clusters := fat.AllocateClusters(n);
      if |clusters| == 0 {
        return false;
      }
      ok := FillFile(data, name, now, clusters, t0, n);
    }

    /** `copyToSystem` once `allocateClusters(n)` has linked `clusters` in `t`: writes the
        file along them and adds its entry, or frees them when no slot is empty. */
    method FillFile(data: seq<bv8>, name: seq<char>, now: U32, clusters: seq<U16>, ghost t: seq<U16>, ghost n: nat)
        returns (ok: bool)
      requires Valid()
      requires |t| < MaxClusters && 1 <= n <= |FreeFrom(t, 0)|
      requires fat.table == Allocated(t, n) && clusters == FirstFree(t, n)
      requires Consistent(t, rootDir.entries, chains) && IsChain(fat.table, clusters)
      requires forall i :: Occupied(rootDir.entries, i) ==> Disjoint(chains[i], clusters) && Disjoint(clusters, chains[i])
      requires |data| < U32Modulus
      requires ClusterStart(n - 1, dataArea.clusterSize) < |data| <= ClusterStart(n, dataArea.clusterSize)
      modifies this, fat, rootDir, dataArea.dataArea
      ensures Valid()
      ensures fat == old(fat) && rootDir == old(rootDir) && dataArea == old(dataArea) && bootRecord == old(bootRecord)
      ensures ok <==> FirstEmpty(old(rootDir.entries)).Some?
      ensures ok ==> var slot := FirstEmpty(old(rootDir.entries)).value;
          && fat.table == old(fat.table)
          && rootDir.entries == old(rootDir.entries)[slot := NewEntry(name, |data|, clusters[0], now)]
          && chains == old(chains)[slot := clusters]
          && Contents(slot) == data
      ensures !ok ==> fat.table == t && rootDir.entries == old(rootDir.entries) && chains == old(chains)
      ensures dataArea.dataArea[..] == StoreChain(old(dataArea.dataArea[..]), dataArea.clusterSize, dataArea.clusterCount, clusters, data)
      ensures forall j :: Occupied(old(rootDir.entries), j) ==>
        j < |rootDir.entries| && rootDir.entries[j] == old(rootDir.entries)[j] && Contents(j) == old(Contents(j))
    {
      ghost var area0 := dataArea.dataArea[..];
      FirstFitIsLowest(t, n);
      WriteChain(clusters, data);
      StoreKeepsFiles(area0, dataArea.clusterSize, dataArea.clusterCount, t, rootDir.entries, chains, clusters, data);
      ok := AddEntry(name, |data|, clusters, now, t, n);
      if ok {
        StoreThenGather(area0, dataArea.clusterSize, dataArea.clusterCount, clusters, data);
      }
    }

    /** Fills the first empty slot with a file on the chain `allocateClusters(n)` has just
        linked in `t`; with no empty slot, frees that chain again. */
    method AddEntry(name: seq<char>, fileSize: U32, clusters: seq<U16>, now: U32, ghost t: seq<U16>, ghost n: nat)
        returns (ok: bool)
      requires fat != null && rootDir != null
      requires |t| < MaxClusters && 1 <= n <= |FreeFrom(t, 0)|
      requires fat.table == Allocated(t, n) && clusters == FirstFree(t, n)
      requires Consistent(t, rootDir.entries, chains)
      requires Consistent(fat.table, rootDir.entries, chains) && IsChain(fat.table, clusters)
      requires forall i :: Occupied(rootDir.entries, i) ==> Disjoint(chains[i], clusters) && Disjoint(clusters, chains[i])
      modifies this, fat, rootDir
      ensures fat == old(fat) && rootDir == old(rootDir) && dataArea == old(dataArea) && bootRecord == old(bootRecord)
      ensures ok <==> FirstEmpty(old(rootDir.entries)).Some?
      ensures ok ==> var slot := FirstEmpty(old(rootDir.entries)).value;
        && fat.table == old(fat.table)
        && rootDir.entries == old(rootDir.entries)[slot := NewEntry(name, fileSize, clusters[0], now)]
        && chains == old(chains)[slot := clusters]
      ensures !ok ==> fat.table == t && rootDir.entries == old(rootDir.entries) && chains == old(chains)
      ensures Consistent(fat.table, rootDir.entries, chains)
    {
      ghost var slot := FirstEmpty(rootDir.entries);
      ghost var es := rootDir.entries;
      ok := rootDir.AddFile(name, fileSize, clusters[0], now);
      if !ok {
        ReleaseClusters(clusters[0], t, n);
        return;
      }
      AddKeepsConsistent(fat.table, es, chains, clusters, name, fileSize, now);
      chains := chains[slot.value := clusters];
    }

    /** Frees a chain `allocateClusters(n)` has just linked in `t`, giving back `t`. */
    method ReleaseClusters(start: U16, ghost t: seq<U16>, ghost n: nat)
      requires fat != null
      requires |t| < MaxClusters && 1 <= n <= |FreeFrom(t, 0)|
      requires fat.table == Allocated(t, n) && start == FirstFree(t, n)[0]
      modifies fat
      ensures fat.table == t
    {
      AllocateThenFreeRestores(t, n);
      fat.FreeClusters(start);
    }

    /** The write loop of `copyToSystem`: piece `i` of `data`, `sizeToWrite` bytes from offset
        `i * clusterSize`, goes to cluster `clusters[i]`; the offset is kept as a running sum. */
    method WriteChain(clusters: seq<U16>, data: seq<bv8>)
      requires dataArea != null && dataArea.Valid() && dataArea.clusterSize >= 1
      requires |clusters| >= 1
      requires ClusterStart(|clusters| - 1, dataArea.clusterSize) < |data| <= ClusterStart(|clusters|, dataArea.clusterSize)
      modifies dataArea.dataArea
      ensures dataArea.dataArea[..] == StoreChain(old(dataArea.dataArea[..]), dataArea.clusterSize, dataArea.clusterCount, clusters, data)
    {
      ghost var total := StoreChain(dataArea.dataArea[..], dataArea.clusterSize, dataArea.clusterCount, clusters, data);
      var offset: nat := 0;
      var i := 0;
      while i < |clusters|
        invariant 0 <= i <= |clusters|
        invariant offset <= |data|
        invariant i < |clusters| ==> offset == ClusterStart(i, dataArea.clusterSize)
        invariant i == |clusters| ==> offset == |data|
        invariant StoreChain(dataArea.dataArea[..], dataArea.clusterSize, dataArea.clusterCount, clusters[i..], data[offset..]) == total
      {
        offset := WritePiece(clusters, data, i, offset, total);
        i := i + 1;
      }
    }

    /** One turn of the write loop: cluster `clusters[i]` receives the piece of `data` at
        `offset`, and what is left to store along the rest of the chain is unchanged. */
    method WritePiece(clusters: seq<U16>, data: seq<bv8>, i: nat, offset: nat, ghost total: seq<bv8>) returns (next: nat)
      requires dataArea != null && dataArea.Valid() && dataArea.clusterSize >= 1
      requires 1 <= |clusters| && ClusterStart(|clusters| - 1, dataArea.clusterSize) < |data| <= ClusterStart(|clusters|, dataArea.clusterSize)
      requires i < |clusters| && offset == ClusterStart(i, dataArea.clusterSize) && offset <= |data|
      requires StoreChain(dataArea.dataArea[..], dataArea.clusterSize, dataArea.clusterCount, clusters[i..], data[offset..]) == total
      modifies dataArea.dataArea
      ensures next <= |data|
      ensures i + 1 < |clusters| ==> next == ClusterStart(i + 1, dataArea.clusterSize)
      ensures i + 1 == |clusters| ==> next == |data|
      ensures StoreChain(dataArea.dataArea[..], dataArea.clusterSize, dataArea.clusterCount, clusters[i + 1..], data[next..]) == total
    {
      ghost var before := dataArea.dataArea[..];
      var sizeToWrite := SizeToWriteAt(i, |clusters|, |data|, dataArea.GetClusterSize(), offset);
      dataArea.WriteData(clusters[i], data[offset..], sizeToWrite);
      next := offset + sizeToWrite;
      WriteStep(before, dataArea.dataArea[..], dataArea.clusterSize, dataArea.clusterCount, clusters, data, i, offset, sizeToWrite, next, total);
    }

    /** Frees the chain of the file named `name` and clears its slot; an empty name or one no
        slot matches changes nothing. */
    method RemoveFile(name: seq<char>) returns (ok: bool)
      requires Valid()
      modifies this, fat, rootDir
      ensures Valid()
      ensures fat == old(fat) && rootDir == old(rootDir) && dataArea == old(dataArea) && bootRecord == old(bootRecord)
      ensures ok <==> CStr(name) != [] && FirstMatch(old(rootDir.entries), name).Some?
      ensures ok ==> var i := FirstMatch(old(rootDir.entries), name).value;
        && fat.table == Cleared(old(fat.table), old(chains)[i])
        && rootDir.entries == old(rootDir.entries)[i := Zeroed]
        && chains == old(chains)[i := []]
      ensures !ok ==> fat.table == old(fat.table) && rootDir.entries == old(rootDir.entries) && chains == old(chains)
      ensures forall j :: Occupied(rootDir.entries, j) ==> Contents(j) == old(Contents(j))
    {
      CStrUnfold(name);
      if CharAt(name, 0) == Nul {
        return false;
      }
      var found := rootDir.FindFile(name);
      if found.None? {
        return false;
      }
      var slot := found.value;
      FirstMatchIs(rootDir.entries, name, slot);
      MatchedSlotOccupied(rootDir.entries[slot], name);
      var entry := rootDir.entries[slot];
      ChainWalkEnds(fat.table, chains[slot]);
      RemoveKeepsConsistent(fat.table, rootDir.entries, chains, slot);
      fat.FreeClusters(entry.startCluster);
      var removed := rootDir.RemoveFile(name);
      chains := chains[slot := []];
      ok := true;
    }

    /** The occupied slots, in slot order. */
    method ListFiles() returns (files: seq<RootEntry>)
      requires Valid()
      ensures files == Listed(rootDir.entries)
      ensures forall e :: e in files <==> e in rootDir.entries && !IsEmptySlot(e)
    {
      files := rootDir.ListFiles();
      ListedIsOccupied(rootDir.entries);
    }
  }
}
