/** The data area: one flat byte buffer cut into `clusterCount` clusters of
    `clusterSize` bytes, read and written a cluster at a time. */
module DataArea {
  import opened Common

  lemma MulSucc(a: nat, b: nat)
    ensures (a + 1) * b == a * b + b
  {}

  /** The byte where cluster `c` starts: `c * clusterSize`, as a sum of whole clusters. */
  function ClusterStart(c: nat, clusterSize: nat): nat {
    if c == 0 then 0 else ClusterStart(c - 1, clusterSize) + clusterSize
  }

  lemma {:induction false} ClusterStartIsProduct(c: nat, clusterSize: nat)
    ensures ClusterStart(c, clusterSize) == c * clusterSize
  {
    if c > 0 {
      ClusterStartIsProduct(c - 1, clusterSize);
      MulSucc(c - 1, clusterSize);
    }
  }

  /** Clusters lie in index order: a later cluster starts no earlier. */
  lemma {:induction false} ClusterStartMono(c1: nat, c2: nat, clusterSize: nat)
    requires c1 <= c2
    ensures ClusterStart(c1, clusterSize) <= ClusterStart(c2, clusterSize)
    decreases c2 - c1
  {
    if c1 < c2 {
      ClusterStartMono(c1, c2 - 1, clusterSize);
    }
  }

  /** Two different clusters occupy disjoint byte ranges. */
  lemma ClustersDisjoint(c1: nat, c2: nat, clusterSize: nat)
    requires c1 < c2
    ensures ClusterStart(c1, clusterSize) + clusterSize <= ClusterStart(c2, clusterSize)
  {
    ClusterStartMono(c1 + 1, c2, clusterSize);
  }

  /** Cluster `c` of an area of `clusterCount` clusters lies inside it. */
  lemma ClusterInArea(c: nat, clusterSize: nat, clusterCount: nat)
    requires c < clusterCount
    ensures ClusterStart(c, clusterSize) + clusterSize <= ClusterStart(clusterCount, clusterSize)
  {
    ClustersDisjoint(c, clusterCount, clusterSize);
  }

  /** The area after `writeData(c, src, size)`: an index past the last cluster changes
      nothing; otherwise the first `min(size, clusterSize)` bytes of `src` are copied to the
      start of cluster `c`. */
  function Written(area: seq<bv8>, clusterSize: nat, clusterCount: nat, c: nat, src: seq<bv8>, size: nat): (r: seq<bv8>)
    requires |area| == ClusterStart(clusterCount, clusterSize)
    requires c < clusterCount ==> Min(size, clusterSize) <= |src|
    ensures |r| == |area|
  {
    if c >= clusterCount then area
    else
      ClusterInArea(c, clusterSize, clusterCount);
      Overwrite(area, ClusterStart(c, clusterSize), src[..Min(size, clusterSize)])
  }

  /** The bytes `readData(c, buffer, size)` places at `buffer`: `size` zero bytes for an
      index past the last cluster, otherwise the first `min(size, clusterSize)` bytes of
      cluster `c`. */
  function ReadBytes(area: seq<bv8>, clusterSize: nat, clusterCount: nat, c: nat, size: nat): (r: seq<bv8>)
    requires |area| == ClusterStart(clusterCount, clusterSize)
    ensures |r| == if c < clusterCount then Min(size, clusterSize) else size
  {
    if c >= clusterCount then Zeros(size)
    else
      ClusterInArea(c, clusterSize, clusterCount);
      area[ClusterStart(c, clusterSize) .. ClusterStart(c, clusterSize) + Min(size, clusterSize)]
  }

  /** Reading back `k <= clusterSize` bytes just written to a cluster yields those bytes. */
  lemma WriteThenRead(area: seq<bv8>, clusterSize: nat, clusterCount: nat, c: nat, src: seq<bv8>, size: nat)
    requires |area| == ClusterStart(clusterCount, clusterSize)
    requires c < clusterCount && size <= clusterSize && size <= |src|
    ensures ReadBytes(Written(area, clusterSize, clusterCount, c, src, size), clusterSize, clusterCount, c, size) == src[..size]
  {
    ClusterInArea(c, clusterSize, clusterCount);
    assert Min(size, clusterSize) == size;
  }

  /** A write to one cluster leaves what any other cluster reads unchanged. */
  lemma WritesDoNotInterfere(area: seq<bv8>, clusterSize: nat, clusterCount: nat, c: nat, src: seq<bv8>, size: nat, d: nat, k: nat)
    requires |area| == ClusterStart(clusterCount, clusterSize)
    requires c < clusterCount ==> Min(size, clusterSize) <= |src|
    requires c != d
    ensures ReadBytes(Written(area, clusterSize, clusterCount, c, src, size), clusterSize, clusterCount, d, k)
         == ReadBytes(area, clusterSize, clusterCount, d, k)
  {
    if c < clusterCount && d < clusterCount {
      var w := Written(area, clusterSize, clusterCount, c, src, size);
      ClusterInArea(c, clusterSize, clusterCount);
      ClusterInArea(d, clusterSize, clusterCount);
      if c < d {
        ClustersDisjoint(c, d, clusterSize);
      } else {
        ClustersDisjoint(d, c, clusterSize);
      }
      var lo := ClusterStart(d, clusterSize);
      var n := Min(k, clusterSize);
      assert forall i :: lo <= i < lo + n ==> w[i] == area[i];
      assert w[lo..lo + n] == area[lo..lo + n];
    }
  }

  /** `memcpy(dst + at, src + from, n)` between two distinct arrays. */
  method CopyBytes(src: array<bv8>, from: nat, dst: array<bv8>, at: nat, n: nat)
    requires src != dst
    requires from + n <= src.Length && at + n <= dst.Length
    modifies dst
    ensures dst[..] == Overwrite(old(dst[..]), at, src[from..from + n])
  {
    ghost var before := dst[..];
    forall i | 0 <= i < n {
      dst[at + i] := src[from + i];
    }
    OverwriteIntro(before, at, src[from..from + n], dst[..]);
  }

  /** `memcpy(dst + at, src, |src|)` from a byte sequence. */
  method StoreBytes(src: seq<bv8>, dst: array<bv8>, at: nat)
    requires at + |src| <= dst.Length
    modifies dst
    ensures dst[..] == Overwrite(old(dst[..]), at, src)
  {
    ghost var before := dst[..];
    forall i | 0 <= i < |src| {
      dst[at + i] := src[i];
    }
    OverwriteIntro(before, at, src, dst[..]);
  }

  /** `memset(dst + at, 0, n)`. */
  method FillZero(dst: array<bv8>, at: nat, n: nat)
    requires at + n <= dst.Length
    modifies dst
    ensures dst[..] == Overwrite(old(dst[..]), at, Zeros(n))
  {
    ghost var before := dst[..];
    forall i | 0 <= i < n {
      dst[at + i] := 0;
    }
    OverwriteIntro(before, at, Zeros(n), dst[..]);
  }

  class DataAreaManager {
    const dataArea: array<bv8>
    const clusterSize: U32
    const clusterCount: U32

    ghost predicate Valid() {
      dataArea.Length == ClusterStart(clusterCount, clusterSize)
    }

    /** A zeroed area of `clusterSize * clusterCount` bytes. */
    constructor (clusterSize: U32, clusterCount: U32)
      requires clusterSize * clusterCount < U32Modulus
      ensures Valid() && fresh(dataArea)
      ensures this.clusterSize == clusterSize && this.clusterCount == clusterCount
      ensures dataArea.Length == clusterSize * clusterCount
      ensures dataArea[..] == Zeros(dataArea.Length)
    {
      this.clusterSize := clusterSize;
      this.clusterCount := clusterCount;
      ClusterStartIsProduct(clusterCount, clusterSize);
      var size: nat := clusterSize * clusterCount;
      dataArea := new bv8[size](_ => 0);
    }

    /** Copies at most one cluster's worth of `data` to the start of `cluster`; an index past
        the last cluster changes nothing. */
    method WriteData(cluster: U16, data: seq<bv8>, size: U32)
      requires Valid()
      requires cluster < clusterCount ==> Min(size, clusterSize) <= |data|
      modifies dataArea
      ensures Valid()
      ensures dataArea[..] == Written(old(dataArea[..]), clusterSize, clusterCount, cluster, data, size)
    {
      if cluster >= clusterCount {
        return;
      }
      var offset := cluster * clusterSize;
      ClusterStartIsProduct(cluster, clusterSize);
      ClusterInArea(cluster, clusterSize, clusterCount);
      StoreBytes(data[..Min(size, clusterSize)], dataArea, offset);
    }

    /** Copies at most one cluster's worth of `cluster` into `buffer` from position `at`;
        an index past the last cluster zero-fills `size` bytes instead. */
    method ReadData(cluster: U16, buffer: array<bv8>, at: nat, size: U32)
      requires Valid()
      requires buffer != dataArea
      requires at + (if cluster < clusterCount then Min(size, clusterSize) else size) <= buffer.Length
      modifies buffer
      ensures buffer[..] == Overwrite(old(buffer[..]), at, ReadBytes(dataArea[..], clusterSize, clusterCount, cluster, size))
    {
      if cluster >= clusterCount {
        FillZero(buffer, at, size);
      } else {
        var offset := cluster * clusterSize;
        ClusterStartIsProduct(cluster, clusterSize);
        ClusterInArea(cluster, clusterSize, clusterCount);
        CopyBytes(dataArea, offset, buffer, at, Min(size, clusterSize));
      }
    }

    function GetClusterSize(): (r: U32)
      ensures r == clusterSize
    {
      clusterSize
    }

    function GetClusterCount(): (r: U32)
      ensures r == clusterCount
    {
      clusterCount
    }
  }
}
