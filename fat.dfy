/** The file allocation table: one 16-bit entry per cluster, holding FREE,
    end-of-chain, bad, or the index of the next cluster of a file. */
module Fat {
  import opened Common

  const Free: U16 := 0x0000
  const Eof: U16 := 0xFFFF
  const Bad: U16 := 0xFFF7

  /** The largest table for which every index fits a 16-bit entry and differs from the BAD and EOF markers. */
  const MaxClusters: int := 0xFFF7

  predicate Ascending(s: seq<int>) {
    forall i, j :: 0 <= i < j < |s| ==> s[i] < s[j]
  }

  /** Every cluster of `cs` indexes the table `t`. */
  predicate InTable(t: seq<U16>, cs: seq<U16>) {
    forall k :: 0 <= k < |cs| ==> cs[k] < |t|
  }

  /** A strictly increasing sequence of indices below `bound` has at most `bound` elements. */
  lemma {:induction false} AscendingLength(s: seq<int>, bound: nat)
    requires Ascending(s)
    requires forall k :: 0 <= k < |s| ==> 0 <= s[k] < bound
    ensures |s| <= bound
  {
    if |s| > 0 {
      var last := s[|s| - 1];
      var init := s[..|s| - 1];
      assert forall k :: 0 <= k < |init| ==> 0 <= init[k] < last by {
        forall k | 0 <= k < |init| ensures 0 <= init[k] < last {
          assert init[k] == s[k];
        }
      }
      assert Ascending(init);
      AscendingLength(init, last);

    }
  }

  // ---------------------------------------------------------------------------
  // Free clusters, in the order the first-fit scan meets them

  /** The FREE clusters at index `from` or above, in ascending order. */
  function FreeFrom(t: seq<U16>, from: nat): seq<U16>
    requires |t| <= U16Modulus
    decreases |t| - from
  {
    if from >= |t| then []
    else (if t[from] == Free then [from as U16] else []) + FreeFrom(t, from + 1)
  }

  /** The scan from `from` collects every FREE cluster at or above `from`, and nothing
      else, in ascending order. */
  lemma FreeFromIsFreeClusters(t: seq<U16>, from: nat)
    requires |t| <= U16Modulus
    ensures var r := FreeFrom(t, from);
      && Ascending(r)
      && (forall k :: 0 <= k < |r| ==> from <= r[k] < |t| && t[r[k]] == Free)
      && (forall i :: from <= i < |t| && t[i] == Free ==> i in r)
  {
    FreeFromAscending(t, from);
    FreeFromSound(t, from);
    FreeFromComplete(t, from);
  }

  lemma {:induction false} FreeFromSound(t: seq<U16>, from: nat)
    requires |t| <= U16Modulus
    ensures forall k :: 0 <= k < |FreeFrom(t, from)| ==>
      from <= FreeFrom(t, from)[k] < |t| && t[FreeFrom(t, from)[k]] == Free
    decreases |t| - from
  {
    if from < |t| {
      FreeFromSound(t, from + 1);
      var rest := FreeFrom(t, from + 1);
      var r := FreeFrom(t, from);
      if t[from] == Free {
        assert r == [from as U16] + rest;
        forall k | 0 < k < |r|
          ensures from < r[k] < |t| && t[r[k]] == Free
        {
          assert r[k] == rest[k - 1];
        }
      } else {
        assert r == rest;
      }
    }
  }

  lemma {:induction false} FreeFromComplete(t: seq<U16>, from: nat)
    requires |t| <= U16Modulus
    ensures forall i :: from <= i < |t| && t[i] == Free ==> i in FreeFrom(t, from)
    decreases |t| - from
  {
    if from < |t| {
      FreeFromComplete(t, from + 1);
      var rest := FreeFrom(t, from + 1);
      var r := FreeFrom(t, from);
      if t[from] == Free {
        assert r == [from as U16] + rest;
      } else {
        assert r == rest;
      }
    }
  }

  lemma {:induction false} FreeFromAscending(t: seq<U16>, from: nat)
    requires |t| <= U16Modulus
    ensures Ascending(FreeFrom(t, from))
    decreases |t| - from
  {
    if from < |t| {
      FreeFromAscending(t, from + 1);
      FreeFromSound(t, from + 1);
      var rest := FreeFrom(t, from + 1);
      var r := FreeFrom(t, from);
      if t[from] == Free {
        assert r == [from as U16] + rest;
        forall i, j | 0 <= i < j < |r|
          ensures r[i] < r[j]
        {
          assert r[j] == rest[j - 1];
          if i > 0 {
            assert r[i] == rest[i - 1];
          }
        }
      } else {
        assert r == rest;
      }
    }
  }

  /** The clusters `allocateClusters(n)` picks when there are enough of them: the `n` lowest FREE ones. */
  function FirstFree(t: seq<U16>, n: nat): (r: seq<U16>)
    requires |t| <= U16Modulus
    requires n <= |FreeFrom(t, 0)|
  {
    FreeFrom(t, 0)[..n]
  }

  /** First fit: the chosen clusters are `n` FREE clusters in ascending order, and
      every FREE cluster left out lies above all of them. */
  lemma FirstFitIsLowest(t: seq<U16>, n: nat)
    requires |t| <= U16Modulus
    requires n <= |FreeFrom(t, 0)|
    ensures |FirstFree(t, n)| == n && Ascending(FirstFree(t, n)) && InTable(t, FirstFree(t, n))
    ensures forall k :: 0 <= k < n ==> t[FirstFree(t, n)[k]] == Free
    ensures forall i, k :: 0 <= i < |t| && t[i] == Free && i !in FirstFree(t, n) && 0 <= k < n ==>
              FirstFree(t, n)[k] < i
  {
    var all := FreeFrom(t, 0);
    var r := FirstFree(t, n);
    FreeFromIsFreeClusters(t, 0);
    forall i, k | 0 <= i < |t| && t[i] == Free && i !in r && 0 <= k < n
      ensures r[k] < i
    {
      assert i in all;
      var j :| 0 <= j < |all| && all[j] == i;
      assert all[..n] == r;
      assert n <= j;
      assert all[k] == r[k];
    }
  }

  // ---------------------------------------------------------------------------
  // Chains

  /** The table after `allocateClusters` links `cs` in order and marks the last one EOF. */
  function LinkChain(t: seq<U16>, cs: seq<U16>): (r: seq<U16>)
    requires InTable(t, cs)
    ensures |r| == |t|
    decreases |cs|
  {
    if |cs| == 0 then t
    else if |cs| == 1 then t[cs[0] := Eof]
    else LinkChain(t[cs[0] := cs[1]], cs[1..])
  }

  /** `cs` is a chain of `t`: ascending clusters of the table, each entry linking to the
      next one and the last one holding EOF. */
  predicate IsChain(t: seq<U16>, cs: seq<U16>) {
    && |cs| >= 1
    && Ascending(cs)
    && InTable(t, cs)
    && (forall k :: 0 <= k < |cs| - 1 ==> t[cs[k]] == cs[k + 1])
    && t[cs[|cs| - 1]] == Eof
  }

  /** Linking ascending clusters makes them a chain and changes no other entry. */
  lemma {:induction false} LinkChainMakesChain(t: seq<U16>, cs: seq<U16>)
    requires |cs| >= 1 && Ascending(cs) && InTable(t, cs)
    ensures IsChain(LinkChain(t, cs), cs)
    ensures forall i :: 0 <= i < |t| && i !in cs ==> LinkChain(t, cs)[i] == t[i]
    decreases |cs|
  {
    if |cs| > 1 {
      var t' := t[cs[0] := cs[1]];
      var rest := cs[1..];
      LinkChainMakesChain(t', rest);
      var r := LinkChain(t, cs);
      assert r == LinkChain(t', rest);
      assert cs[0] !in rest;
      assert r[cs[0]] == cs[1];
      forall k | 0 <= k < |cs| - 1
        ensures r[cs[k]] == cs[k + 1]
      {
        if k > 0 {
          assert cs[k] == rest[k - 1] && cs[k + 1] == rest[k];
        }
      }
      assert cs[|cs| - 1] == rest[|rest| - 1];
      forall i | 0 <= i < |t| && i !in cs
        ensures r[i] == t[i]
      {
        assert i !in rest;
      }
    }
  }

  /** The walk `freeClusters` performs: follow entries from `c` until EOF or an index past
      the table; `None` when more than `fuel` clusters are visited. */
  function Walk(t: seq<U16>, c: U16, fuel: nat): Option<seq<U16>>
    decreases fuel
  {
    if c == Eof || c >= |t| then Some([])
    else if fuel == 0 then None
    else match Walk(t, t[c], fuel - 1)
      case None => None
      case Some(rest) => Some([c] + rest)
  }

  /** A completed walk visits clusters of the table, each linking to the next, and stops
      exactly where the loop in `freeClusters` stops. */
  lemma {:induction false} WalkShape(t: seq<U16>, c: U16, fuel: nat)
    requires Walk(t, c, fuel).Some?
    ensures var cs := Walk(t, c, fuel).value;
      && |cs| <= fuel
      && (forall k :: 0 <= k < |cs| ==> cs[k] != Eof && cs[k] < |t|)
      && (|cs| == 0 ==> c == Eof || c >= |t|)
      && (|cs| > 0 ==> cs[0] == c && (t[cs[|cs| - 1]] == Eof || t[cs[|cs| - 1]] >= |t|))
      && (forall k :: 0 <= k < |cs| - 1 ==> t[cs[k]] == cs[k + 1])
    decreases fuel
  {
    if !(c == Eof || c >= |t|) {
      var rest := Walk(t, t[c], fuel - 1).value;
      WalkShape(t, t[c], fuel - 1);
      var cs := Walk(t, c, fuel).value;
      assert cs == [c] + rest;
      forall k | 0 <= k < |cs| - 1
        ensures t[cs[k]] == cs[k + 1]
      {
        if k > 0 {
          assert cs[k] == rest[k - 1] && cs[k + 1] == rest[k];
        }
      }
    }
  }

  /** The walk along a chain visits exactly the chain's clusters. */
  lemma {:induction false} ChainWalk(t: seq<U16>, cs: seq<U16>, fuel: nat)
    requires |t| < MaxClusters
    requires IsChain(t, cs)
    requires |cs| <= fuel
    ensures Walk(t, cs[0], fuel) == Some(cs)
    decreases |cs|
  {
    if |cs| == 1 {
      assert Walk(t, t[cs[0]], fuel - 1) == Some([]);
      assert cs == [cs[0]] + [];
    } else {
      var rest := cs[1..];
      assert IsChain(t, rest) by {
        forall k | 0 <= k < |rest| - 1
          ensures t[rest[k]] == rest[k + 1]
        {
          assert rest[k] == cs[k + 1];
        }
      }
      ChainWalk(t, rest, fuel - 1);
      assert [cs[0]] + rest == cs;
    }
  }

  /** Distinct elements. */
  predicate Distinct(s: seq<U16>) {
    forall i, j :: 0 <= i < j < |s| ==> s[i] != s[j]
  }

  /** The head of a sequence of distinct elements is not in its tail, whose elements are distinct too. */
  lemma DistinctTail(s: seq<U16>)
    requires |s| >= 1 && Distinct(s)
    ensures Distinct(s[1..]) && s[0] !in s[1..]
  {
    forall i, j | 0 <= i < j < |s| - 1 ensures s[1..][i] != s[1..][j] {
      assert s[1..][i] == s[i + 1] && s[1..][j] == s[j + 1];
    }
    forall j | 0 <= j < |s| - 1 ensures s[1..][j] != s[0] {
      assert s[1..][j] == s[j + 1];
    }
  }

  /** `freeClusters(start)` terminates: the walk from `start` ends within one visit per
      cluster and never comes back to a cluster it has visited. */
  ghost predicate WalkEnds(t: seq<U16>, start: U16) {
    var w := Walk(t, start, |t|);
    w.Some? && Distinct(w.value)
  }

  /** The clusters `freeClusters(start)` resets. */
  ghost function WalkFrom(t: seq<U16>, start: U16): seq<U16>
    requires WalkEnds(t, start)
  {
    Walk(t, start, |t|).value
  }

  /** `t` with the entries of `cs` reset to FREE. */
  function Cleared(t: seq<U16>, cs: seq<U16>): (r: seq<U16>)
    ensures |r| == |t|
    ensures forall i :: 0 <= i < |t| && i in cs ==> r[i] == Free
    ensures forall i :: 0 <= i < |t| && i !in cs ==> r[i] == t[i]
  {
    seq(|t|, i requires 0 <= i < |t| => if i in cs then Free else t[i])
  }

  /** Resetting the next cluster of a walk whose earlier clusters are already reset: the entry
      still holds its original link, and the reset extends the cleared prefix by one. */
  lemma ClearStep(t: seq<U16>, cs: seq<U16>, k: nat)
    requires k < |cs| && Distinct(cs) && cs[k] < |t|
    ensures Cleared(t, cs[..k])[cs[k]] == t[cs[k]]
    ensures Cleared(t, cs[..k])[cs[k] := Free] == Cleared(t, cs[..k + 1])
  {
    assert cs[k] !in cs[..k] by {
      forall j | 0 <= j < k ensures cs[..k][j] != cs[k] {
        assert cs[..k][j] == cs[j];
      }
    }
    assert cs[..k + 1] == cs[..k] + [cs[k]];
  }

  /** Every chain ends: its walk stays within the table's size, visits each of its
      clusters once and reaches EOF. */
  lemma ChainWalkEnds(t: seq<U16>, cs: seq<U16>)
    requires |t| < MaxClusters
    requires IsChain(t, cs)
    ensures WalkEnds(t, cs[0]) && WalkFrom(t, cs[0]) == cs
  {
    AscendingLength(cs, |t|);
    ChainWalk(t, cs, |t|);
  }

  /** What `allocateClusters(n)` does to the table when enough clusters are FREE. */
  function Allocated(t: seq<U16>, n: nat): (r: seq<U16>)
    requires |t| <= U16Modulus
    requires n <= |FreeFrom(t, 0)|
  {
    FirstFitIsLowest(t, n);
    LinkChain(t, FirstFree(t, n))
  }

  /** The chain `allocateClusters(n)` builds is walked to EOF within `clusterCount` steps,
      so the walks of `freeClusters` and `copyFromSystem` terminate on it. */
  lemma AllocatedChainEnds(t: seq<U16>, n: nat)
    requires |t| < MaxClusters
    requires 1 <= n <= |FreeFrom(t, 0)|
    ensures IsChain(Allocated(t, n), FirstFree(t, n))
    ensures WalkEnds(Allocated(t, n), FirstFree(t, n)[0])
    ensures WalkFrom(Allocated(t, n), FirstFree(t, n)[0]) == FirstFree(t, n)
  {
    var cs := FirstFree(t, n);
    FirstFitIsLowest(t, n);
    LinkChainMakesChain(t, cs);
    ChainWalkEnds(Allocated(t, n), cs);
  }

  /** Freeing the chain that was just allocated gives back the table exactly. */
  lemma AllocateThenFreeRestores(t: seq<U16>, n: nat)
    requires |t| < MaxClusters
    requires 1 <= n <= |FreeFrom(t, 0)|
    ensures WalkEnds(Allocated(t, n), FirstFree(t, n)[0])
    ensures Cleared(Allocated(t, n), WalkFrom(Allocated(t, n), FirstFree(t, n)[0])) == t
  {
    var cs := FirstFree(t, n);
    var t' := Allocated(t, n);
    FirstFitIsLowest(t, n);
    AllocatedChainEnds(t, n);
    LinkChainMakesChain(t, cs);
    var r := Cleared(t', cs);
    forall i | 0 <= i < |t|
      ensures r[i] == t[i]
    {
      if i in cs {
        var k :| 0 <= k < |cs| && cs[k] == i;
        assert t[cs[k]] == Free;
      }
    }
  }

  /** A chain's entries are never FREE: its links go strictly upwards, so none is 0. */
  lemma ChainNotFree(t: seq<U16>, cs: seq<U16>)
    requires IsChain(t, cs)
    ensures forall k :: 0 <= k < |cs| ==> t[cs[k]] != Free
  {
    forall k | 0 <= k < |cs|
      ensures t[cs[k]] != Free
    {
      if k < |cs| - 1 {
        assert t[cs[k]] == cs[k + 1] > cs[k] >= 0;
      }
    }
  }

  /** A chain survives any change to the table that leaves its own entries alone. */
  lemma ChainSurvives(t: seq<U16>, u: seq<U16>, cs: seq<U16>)
    requires IsChain(t, cs) && |u| == |t|
    requires forall k :: 0 <= k < |cs| ==> u[cs[k]] == t[cs[k]]
    ensures IsChain(u, cs)
  {
    assert forall k :: 0 <= k < |cs| - 1 ==> u[cs[k]] == t[cs[k]];
  }

  /** From a FREE cluster 0 the walk of `freeClusters` never ends: entry 0 links back to
      cluster 0, and the loop frees it again and again. */
  lemma {:induction false} FreeZeroNeverEnds(t: seq<U16>, fuel: nat)
    requires |t| >= 1 && t[0] == Free
    ensures Walk(t, 0, fuel) == None
    decreases fuel
  {
    if fuel > 0 {
      FreeZeroNeverEnds(t, fuel - 1);
    }
  }

  /** `size_t` values are 64 bits wide. */
  const SizeTModulus: int := 0x1_0000_0000_0000_0000

  /** `allocatedClusters.size() - 1` in `size_t`: the bound of the linking loop. */
  function LinkLoopBound(found: nat): (r: nat)
    requires found < SizeTModulus
    ensures r < SizeTModulus
  {
    (found + SizeTModulus - 1) % SizeTModulus
  }

  /** With at least one cluster found the linking loop runs once per link, as `LinkClusters` does. */
  lemma LinkLoopBoundExact(found: nat)
    requires 1 <= found < SizeTModulus
    ensures LinkLoopBound(found) == found - 1
  {
  }

  /** `allocateClusters(0)` as written: the scan finds nothing, the check for too few
      clusters passes, and the linking loop's bound wraps to the largest `size_t`, so its
      first turn reads index 0 of the empty vector. */
  lemma ZeroRequestOverruns(t: seq<U16>)
    requires |t| < MaxClusters
    ensures var found := FreeFrom(t, 0)[..Min(0, |FreeFrom(t, 0)|)];
      && found == []
      && !(|found| < 0)
      && LinkLoopBound(|found|) == SizeTModulus - 1
      && 0 < LinkLoopBound(|found|)
      && !(0 < |found|)
  {
  }

  // ---------------------------------------------------------------------------
  // The table manager

  class FatManager {
    /** One entry per cluster. */
    var table: seq<U16>

    /** A table of `clusterCount` entries, all FREE. */
    constructor (clusterCount: U32)
      ensures |table| == clusterCount
      ensures forall i :: 0 <= i < clusterCount ==> table[i] == Free
    {
      table := seq(clusterCount, _ => Free);
    }

    /** Resets every entry to FREE; the size is kept. */
    method Initialize()
      modifies this
      ensures |table| == old(|table|)
      ensures forall i :: 0 <= i < |table| ==> table[i] == Free
    {
      var i := 0;
      while i < |table|
        invariant 0 <= i <= |table| == old(|table|)
        invariant forall j :: 0 <= j < i ==> table[j] == Free
      {
        table := table[i := Free];
        i := i + 1;
      }
    }

    /** First fit, all or nothing: the `n` lowest FREE clusters linked into a chain ending
        in EOF, or no cluster and no change when fewer than `n` are FREE. */
    method AllocateClusters(n: U32) returns (clusters: seq<U16>)
      requires 1 <= n
      requires |table| < MaxClusters
      modifies this
      ensures |FreeFrom(old(table), 0)| < n ==> clusters == [] && table == old(table)
      ensures n <= |FreeFrom(old(table), 0)| ==>
        && clusters == FirstFree(old(table), n)
        && table == Allocated(old(table), n)
        && IsChain(table, clusters)
        && (forall i :: 0 <= i < |table| && i !in clusters ==> table[i] == old(table)[i])
    {
      var found := FindFree(n);
      if |found| < n {
        return [];
      }
      FirstFitIsLowest(table, n);
      ghost var t0 := table;
      LinkClusters(found);
      LinkChainMakesChain(t0, found);
      clusters := found;
    }

    /** The scan of `allocateClusters`: the FREE clusters met from index 0 on, stopping once
        `n` are found or the table ends. */
    method FindFree(n: U32) returns (found: seq<U16>)
      requires |table| < MaxClusters
      ensures found == FreeFrom(table, 0)[..Min(n, |FreeFrom(table, 0)|)]
    {
      ghost var free := FreeFrom(table, 0);
      found := [];
      var i := 0;
      while i < |table| && |found| < n
        invariant 0 <= i <= |table|
        invariant |found| <= n
        invariant found + FreeFrom(table, i) == free
      {
        assert FreeFrom(table, i) == (if table[i] == Free then [i as U16] else []) + FreeFrom(table, i + 1);
        if table[i] == Free {
          found := found + [i as U16];
        }
        i := i + 1;
      }
      if |found| < n {
        assert found == free;
      } else {
        assert found == free[..n];
      }
    }

    /** The linking loop of `allocateClusters`: each chosen entry points to the next chosen
        cluster and the last one holds EOF. */
    method LinkClusters(clusters: seq<U16>)
      requires |clusters| >= 1 && InTable(table, clusters)
      modifies this
      ensures table == LinkChain(old(table), clusters)
    {
      var k := 0;
      while k < |clusters| - 1
        invariant 0 <= k <= |clusters| - 1
        invariant |table| == |old(table)|
        invariant LinkChain(table, clusters[k..]) == LinkChain(old(table), clusters)
      {
        assert clusters[k..][1..] == clusters[k + 1..];
        table := table[clusters[k] := clusters[k + 1]];
        k := k + 1;
      }
      assert clusters[k..] == [clusters[|clusters| - 1]];
      table := table[clusters[|clusters| - 1] := Eof];
    }

    /** Walks the chain from `startCluster`, resetting each visited entry to FREE, until EOF
        or an index past the table. */
    method FreeClusters(startCluster: U16)
      requires WalkEnds(table, startCluster)
      modifies this
      ensures table == Cleared(old(table), WalkFrom(old(table), startCluster))
    {
      ghost var cs := WalkFrom(table, startCluster);
      WalkShape(table, startCluster, |table|);
      var current := startCluster;
      ghost var k := 0;
      while current != Eof && current < |table|
        invariant 0 <= k <= |cs|
        invariant |table| == |old(table)|
        invariant table == Cleared(old(table), cs[..k])
        invariant k < |cs| ==> current == cs[k]
        invariant k == |cs| ==> current == Eof || current >= |table|
        decreases |cs| - k
      {
        ClearStep(old(table), cs, k);
        var next := table[current];
        table := table[current := Free];
        current := next;
        k := k + 1;
      }
      assert cs[..k] == cs;
    }

    /** The entry of `cluster`, or EOF for an index past the table. */
    function GetNextCluster(cluster: U16): (r: U16)
      reads this
      ensures cluster < |table| ==> r == table[cluster]
      ensures |table| <= cluster ==> r == Eof
    {
      if cluster >= |table| then Eof else table[cluster]
    }

    /** Sets the entry of `cluster`; an index past the table changes nothing. */
    method SetNextCluster(cluster: U16, nextCluster: U16)
      modifies this
      ensures cluster < old(|table|) ==> table == old(table)[cluster := nextCluster]
      ensures old(|table|) <= cluster ==> table == old(table)
    {
      if cluster < |table| {
        table := table[cluster := nextCluster];
      }
    }

    function GetClusterCount(): (r: nat)
      reads this
      ensures r == |table|
    {
      |table|
    }
  }
}
