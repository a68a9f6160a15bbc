/** Reading a cluster chain of a FAT16 volume. */
module FatChain {
  import opened Bytes
  import opened FatVolume

  const END_OF_CHAIN: nat := 0xfff8
  const FIRST_RESERVED: nat := 0xfff0

  /** The FAT entry of cluster `c`. */
  function Next(v: seq<Byte>, g: Geometry, c: nat): (n: nat)
    requires LaidOut(g, |v|) && g.HasSlot(c)
  {
    MetadataInside(g, |v|);
    Le16(v, g.fatStart + 2 * c)
  }

  function ClusterData(v: seq<Byte>, g: Geometry, c: nat): (s: seq<Byte>)
    requires LaidOut(g, |v|) && g.HasCluster(c)
    ensures |s| == g.ClusterBytes()
  {
    ClusterInside(g, |v|, c);
    v[g.ClusterStart(c)..g.ClusterStart(c) + g.ClusterBytes()]
  }

  ghost predicate Distinct(path: seq<nat>)
  {
    forall i, j :: 0 <= i < j < |path| ==> path[i] != path[j]
  }

  /** Cluster `c` exists and has a FAT entry. */
  predicate Usable(g: Geometry, c: nat) { g.HasCluster(c) && g.HasSlot(c) }

  /** Entry `n` of one cluster leads on to cluster `n`. */
  predicate Links(n: nat) { 2 <= n < FIRST_RESERVED }

  /** The entry of the cluster at index `i` names the cluster that follows it. */
  predicate LinkedAt(v: seq<Byte>, g: Geometry, path: seq<nat>, i: nat)
    requires LaidOut(g, |v|) && i + 1 < |path| && Usable(g, path[i])
  {
    Next(v, g, path[i]) == path[i + 1] && Links(path[i + 1])
  }

  /** The reference: `path` is a cycle-free chain from `first` that ends in an end-of-chain mark. */
  ghost predicate IsChain(v: seq<Byte>, g: Geometry, first: nat, path: seq<nat>)
    requires LaidOut(g, |v|)
  {
    && path != [] && path[0] == first
    && (forall i :: 0 <= i < |path| ==> Usable(g, path[i]))
    && (forall i :: 0 <= i < |path| - 1 ==> LinkedAt(v, g, path, i))
    && Next(v, g, path[|path| - 1]) >= END_OF_CHAIN
    && Distinct(path)
  }

  /** The walk, with its visited set and its count guard. */
  function Walk(v: seq<Byte>, g: Geometry, c: nat, seen: set<nat>): (r: Option<seq<nat>>)
    requires LaidOut(g, |v|)
    decreases g.clusterCount - |seen|
  {
    if !g.HasCluster(c) || c in seen || |seen + {c}| > g.clusterCount || !g.HasSlot(c) then None
    else
      var next := Next(v, g, c);
      if next >= END_OF_CHAIN then Some([c])
      else if !Links(next) then None
      else
        var rest := Walk(v, g, next, seen + {c});
        if rest.None? then None else Some([c] + rest.value)
  }

  /** The bytes of a sequence of clusters, in order. */
  function Contents(v: seq<Byte>, g: Geometry, path: seq<nat>): (s: seq<Byte>)
    requires LaidOut(g, |v|) && forall i :: 0 <= i < |path| ==> g.HasCluster(path[i])
  {
    if path == [] then []
    else Contents(v, g, path[..|path| - 1]) + ClusterData(v, g, path[|path| - 1])
  }

  /** `size` bytes end in the last of `n` clusters. */
  predicate FitsClusters(g: Geometry, size: nat, n: nat)
    requires g.ClusterBytes() > 0
  {
    n == CeilDiv(size, g.ClusterBytes())
  }

  /** Reading a chain, with the size a directory entry promises. */
  function ReadChain(v: seq<Byte>, g: Geometry, first: nat, expected: Option<nat>): (r: Result<seq<Byte>>)
    requires LaidOut(g, |v|)
  {
    var w := Walk(v, g, first, {});
    if w.None? then Err
    else
      WalkIsChain(v, g, first, {});
      var output := Contents(v, g, w.value);
      match expected
      case None => Ok(output)
      case Some(size) =>
        if !FitsClusters(g, size, |w.value|) || size > |output| then Err else Ok(output[..size])
  }

  // ----- The walk finds exactly the chains

  lemma {:induction false} WalkIsChain(v: seq<Byte>, g: Geometry, c: nat, seen: set<nat>)
    requires LaidOut(g, |v|)
    ensures var w := Walk(v, g, c, seen);
            w.Some? ==> IsChain(v, g, c, w.value) && forall i :: 0 <= i < |w.value| ==> w.value[i] !in seen
    decreases g.clusterCount - |seen|
  {
    var w := Walk(v, g, c, seen);
    if w.Some? {
      var next := Next(v, g, c);
      if next < END_OF_CHAIN {
        WalkIsChain(v, g, next, seen + {c});
        var rest := Walk(v, g, next, seen + {c}).value;
        assert w.value[1..] == rest;
        ConsChain(v, g, c, rest);
      }
    }
  }

  lemma ConsChain(v: seq<Byte>, g: Geometry, c: nat, rest: seq<nat>)
    requires LaidOut(g, |v|) && Usable(g, c) && Links(Next(v, g, c))
    requires IsChain(v, g, Next(v, g, c), rest) && forall i :: 0 <= i < |rest| ==> rest[i] != c
    ensures IsChain(v, g, c, [c] + rest)
  {
    hide LaidOut, Next;
    var path := [c] + rest;
    forall i | 0 <= i < |path| - 1 ensures LinkedAt(v, g, path, i) {
      if i > 0 { assert LinkedAt(v, g, rest, i - 1); }
    }
  }

  lemma TailChain(v: seq<Byte>, g: Geometry, c: nat, path: seq<nat>)
    requires LaidOut(g, |v|) && IsChain(v, g, c, path) && |path| > 1
    ensures IsChain(v, g, path[1], path[1..])
    ensures forall i :: 0 <= i < |path| - 1 ==> path[1..][i] != c
    ensures Next(v, g, c) == path[1] && Links(path[1])
  {
    hide LaidOut, Next;
    var rest := path[1..];
    assert LinkedAt(v, g, path, 0);
    forall i | 0 <= i < |rest| - 1 ensures LinkedAt(v, g, rest, i) {
      assert LinkedAt(v, g, path, i + 1);
    }
  }

  /** A set of existing clusters has at most `clusterCount` members, so the count guard never fires. */
  lemma {:induction false} CountGuardNeverFires(n: nat, seen: set<nat>)
    requires forall c :: c in seen ==> 2 <= c < n + 2
    ensures |seen| <= n
  {
    if n == 0 {
      assert seen == {};
    } else {
      var top := n + 1;
      CountGuardNeverFires(n - 1, seen - {top});
      assert seen <= (seen - {top}) + {top};
      if top in seen {
        assert |seen - {top}| == |seen| - 1;
      } else {
        assert seen - {top} == seen;
      }
    }
  }

  lemma {:induction false} ChainIsWalked(v: seq<Byte>, g: Geometry, c: nat, seen: set<nat>, path: seq<nat>)
    requires LaidOut(g, |v|) && IsChain(v, g, c, path)
    requires forall x :: x in seen ==> g.HasCluster(x)
    requires forall i :: 0 <= i < |path| ==> path[i] !in seen
    ensures Walk(v, g, c, seen) == Some(path)
    decreases |path|
  {
    hide LaidOut, Next;
    CountGuardNeverFires(g.clusterCount, seen + {c});
    assert Usable(g, path[0]);
    if |path| == 1 {
      assert path == [c];
    } else {
      TailChain(v, g, c, path);
      ChainIsWalked(v, g, path[1], seen + {c}, path[1..]);
      assert path == [c] + path[1..];
    }
  }

  lemma {:induction false} ContentsLength(v: seq<Byte>, g: Geometry, path: seq<nat>)
    requires LaidOut(g, |v|) && forall i :: 0 <= i < |path| ==> g.HasCluster(path[i])
    ensures |Contents(v, g, path)| == |path| * g.ClusterBytes()
    decreases |path|
  {
    if path != [] {
      ContentsLength(v, g, path[..|path| - 1]);
      assert |path| * g.ClusterBytes() == (|path| - 1) * g.ClusterBytes() + g.ClusterBytes();
    }
  }

  lemma ClusterBytesPositive(g: Geometry, length: nat)
    requires LaidOut(g, length)
    ensures g.ClusterBytes() >= SECTOR
  {
    assert g.sectorsPerCluster * SECTOR >= 1 * SECTOR;
  }

  lemma CeilCovers(size: nat, width: nat)
    requires width > 0
    ensures size <= CeilDiv(size, width) * width
  {
    var q := CeilDiv(size, width);
    assert size + width - 1 == q * width + (size + width - 1) % width;
  }

  /**
   Reading is exact, first half: a chain from `first` is read, cluster by cluster in order.
   With an expected size this needs the chain to be as long as the size asks, and exactly
   that many bytes are returned.
   */
  lemma ChainIsRead(v: seq<Byte>, g: Geometry, first: nat, expected: Option<nat>, path: seq<nat>)
    requires LaidOut(g, |v|) && g.ClusterBytes() > 0 && IsChain(v, g, first, path)
    ensures ReadChain(v, g, first, expected)
            == if expected.None? then Ok(Contents(v, g, path))
               else if !FitsClusters(g, expected.value, |path|) then Err
               else Ok(Contents(v, g, path)[..Min(expected.value, |Contents(v, g, path)|)])
    ensures var r := ReadChain(v, g, first, expected);
            r.Ok? && expected.Some? ==> |r.value| == expected.value
  {
    hide LaidOut, Next, Walk, Contents, CeilDiv;
    ChainIsWalked(v, g, first, {}, path);
    ContentsLength(v, g, path);
    if expected.Some? {
      CeilCovers(expected.value, g.ClusterBytes());
    }
  }

  /** Second half: where there is no cycle-free chain in range, nothing is read. */
  lemma NoChainNoRead(v: seq<Byte>, g: Geometry, first: nat, expected: Option<nat>)
    requires LaidOut(g, |v|) && g.ClusterBytes() > 0
    requires forall path :: !IsChain(v, g, first, path)
    ensures ReadChain(v, g, first, expected).Err?
  {
    hide LaidOut, Next, Walk, Contents, CeilDiv;
    WalkIsChain(v, g, first, {});
  }

  // ----- The loop

  predicate Rejected(g: Geometry, c: nat, seen: set<nat>)
  {
    !g.HasCluster(c) || c in seen || |seen + {c}| > g.clusterCount
  }

  /** The clusters of `done`, followed by what the walk still finds. */
  ghost function Joined(done: seq<nat>, w: Option<seq<nat>>): (r: Option<seq<nat>>)
  {
    if w.None? then None else Some(done + w.value)
  }

  /** One iteration of the walk, as the loop needs it. */
  lemma WalkOnce(v: seq<Byte>, g: Geometry, c: nat, seen: set<nat>, done: seq<nat>)
    requires LaidOut(g, |v|)
    ensures var w := Joined(done, Walk(v, g, c, seen));
            if Rejected(g, c, seen) || !g.HasSlot(c) then w == None
            else if Next(v, g, c) >= END_OF_CHAIN then w == Some(done + [c])
            else if !Links(Next(v, g, c)) then w == None
            else w == Joined(done + [c], Walk(v, g, Next(v, g, c), seen + {c}))
  {
    hide LaidOut, Next;
    if !Rejected(g, c, seen) && g.HasSlot(c) && Links(Next(v, g, c)) {
      var rest := Walk(v, g, Next(v, g, c), seen + {c});
      assert rest.Some? ==> done + ([c] + rest.value) == done + [c] + rest.value;
    }
  }

  lemma ContentsAppend(v: seq<Byte>, g: Geometry, done: seq<nat>, c: nat)
    requires LaidOut(g, |v|) && g.HasCluster(c) && forall i :: 0 <= i < |done| ==> g.HasCluster(done[i])
    ensures Contents(v, g, done + [c]) == Contents(v, g, done) + ClusterData(v, g, c)
  {
    assert (done + [c])[..|done|] == done;
  }

  /** Follows the chain; `clusters` is how many were read. */
  method FollowChain(v: seq<Byte>, g: Geometry, first: nat) returns (ok: bool, output: seq<Byte>, clusters: nat)
    requires LaidOut(g, |v|)
    ensures ok == Walk(v, g, first, {}).Some?
    ensures ok ==> var path := Walk(v, g, first, {}).value;
                   && clusters == |path|
                   && (forall i :: 0 <= i < |path| ==> g.HasCluster(path[i]))
                   && output == Contents(v, g, path)
  {
    hide LaidOut, Next, Walk, Contents, ClusterData;
    var seen: set<nat> := {};
    output := [];
    var cluster: nat := first;
    ghost var done: seq<nat> := [];
    assert Contents(v, g, done) == [] by { EmptyContents(v, g); }
    ghost var all := Walk(v, g, first, {});
    assert all.Some? ==> done + all.value == all.value;
    while true
      invariant |done| == |seen| <= g.clusterCount
      invariant forall i :: 0 <= i < |done| ==> g.HasCluster(done[i])
      invariant output == Contents(v, g, done)
      invariant Walk(v, g, first, {}) == Joined(done, Walk(v, g, cluster, seen))
      decreases g.clusterCount - |seen|
    {
      WalkOnce(v, g, cluster, seen, done);
      if Rejected(g, cluster, seen) {
        return false, [], 0;
      }
      seen := seen + {cluster};
      ContentsAppend(v, g, done, cluster);
      output := output + ClusterData(v, g, cluster);
      if !g.HasSlot(cluster) {
        return false, [], 0;
      }
      var next := Next(v, g, cluster);
      done := done + [cluster];
      if next >= END_OF_CHAIN {
        return true, output, |seen|;
      }
      if !Links(next) {
        return false, [], 0;
      }
      cluster := next;
    }
  }

  lemma EmptyContents(v: seq<Byte>, g: Geometry)
    requires LaidOut(g, |v|)
    ensures Contents(v, g, []) == []
  {
  }

  method ReadFatChain(v: seq<Byte>, g: Geometry, first: nat, expected: Option<nat>) returns (r: Result<seq<Byte>>)
    requires LaidOut(g, |v|)
    ensures r == ReadChain(v, g, first, expected)
  {
    ClusterBytesPositive(g, |v|);
    hide LaidOut, Walk, Contents, CeilDiv;
    var ok, output, clusters := FollowChain(v, g, first);
    if !ok {
      return Err;
    }
    if expected.Some? {
      if clusters != CeilDiv(expected.value, g.ClusterBytes()) || expected.value > |output| {
        return Err;
      }
      output := output[..expected.value];
    }
    return Ok(output);
  }
}
