/**
 The ESP bit-flip fault: where it strikes, and what the reader makes of the volume
 afterwards.
 */
module EspFault {
  import opened Bytes
  import opened FatVolume
  import opened FatChain
  import opened FatReader

  const FAULT_OFFSET: nat := 256

  predicate OccursAt(v: seq<Byte>, pattern: seq<Byte>, q: nat)
  {
    q + |pattern| <= |v| && v[q..q + |pattern|] == pattern
  }

  /** The first position at which `pattern` occurs, searching from `from`. */
  function FirstWindow(v: seq<Byte>, pattern: seq<Byte>, from: nat): (r: Option<nat>)
    ensures r.Some? ==> from <= r.value && OccursAt(v, pattern, r.value)
    ensures r.Some? ==> forall q: nat :: from <= q < r.value ==> !OccursAt(v, pattern, q)
    ensures r.None? ==> forall q: nat :: from <= q ==> !OccursAt(v, pattern, q)
    decreases |v| - from
  {
    if from + |pattern| > |v| then None
    else if OccursAt(v, pattern, from) then Some(from)
    else FirstWindow(v, pattern, from + 1)
  }

  /** The cluster read beside the first occurrence of the application's name. */
  function HitCluster(esp: seq<Byte>): (r: Result<nat>)
    ensures r.Ok? ==> |esp| >= 28
  {
    var hit := FirstWindow(esp, APPLICATION_NAME, 0);
    if hit.None? || hit.value + 28 > |esp| then Err else Ok(Le16(esp, hit.value + 26))
  }

  /** The byte the injector flips, computed from the first bytes of the ESP on its own. */
  function FaultPosition(esp: seq<Byte>): (r: Result<nat>)
  {
    var cluster :- HitCluster(esp);
    if Le16(esp, 11) != SECTOR || esp[13] == 0 || cluster < 2 then Err
    else Ok(ClusterPosition(DataStartSector(esp), esp[13], cluster) + FAULT_OFFSET)
  }

  function ClusterPosition(dataStart: nat, sectorsPerCluster: nat, cluster: nat): (n: nat)
    requires cluster >= 2
  {
    (dataStart + (cluster - 2) * sectorsPerCluster) * SECTOR
  }

  /**
   The in-place flip in an image whose bytes from `start` to `end` are the ESP. Only a position
   outside the whole image is refused.
   */
  method InjectEspFault(image: array<Byte>, start: nat, end: nat) returns (ok: bool)
    requires start <= end <= image.Length
    modifies image
    ensures var p := FaultPosition(old(image[start..end]));
            && (ok <==> p.Ok? && start + p.value < image.Length)
            && image[..] == (if ok then Flipped(old(image[..]), start + p.value) else old(image[..]))
            && (ok && start + p.value < end ==> image[start..end] == Flipped(old(image[start..end]), p.value))
  {
    hide FaultPosition;
    var p := FaultPosition(image[start..end]);
    if p.Err? || start + p.value >= image.Length {
      return false;
    }
    image[start + p.value] := FlipLowBit(image[start + p.value]);
    return true;
  }

  // ----- The injector and the reader compute the same place

  lemma SameStart(v: seq<Byte>)
    requires |v| >= SECTOR && Le16(v, 11) > 0
    ensures var boot := v[..SECTOR];
            Le16(boot, 11) == Le16(v, 11) && boot[13] == v[13] && DataStartSector(boot) == DataStartSector(v)
  {
  }

  /** On an accepted volume the injector strikes byte 256 of the cluster it read. */
  lemma FaultPositionInCluster(v: seq<Byte>, expectedHidden: nat)
    requires ParseFat16(v, expectedHidden).Ok? && HitCluster(v).Ok?
    ensures var g, c := ParseFat16(v, expectedHidden).value, HitCluster(v).value;
            c >= 2 ==> FaultPosition(v) == Ok(g.ClusterStart(c) + FAULT_OFFSET)
  {
    hide HitCluster;
    GeometrySound(v, expectedHidden);
    SameStart(v);
  }

  // ----- A flip in the data area leaves all metadata alone

  lemma SameMetadata(v: seq<Byte>, expectedHidden: nat, p: nat)
    requires ParseFat16(v, expectedHidden).Ok? && p < |v|
    requires ParseFat16(v, expectedHidden).value.DataStart() <= p
    ensures ParseFat16(Flipped(v, p), expectedHidden) == ParseFat16(v, expectedHidden)
  {
    GeometrySound(v, expectedHidden);
    var g := ParseFat16(v, expectedHidden).value;
    var w := Flipped(v, p);
    var second := g.fatStart + g.fatLength;
    assert w[..SECTOR] == v[..SECTOR];
    hide BootGeometry;
    assert w[g.fatStart..second] == v[g.fatStart..second];
    assert w[second..second + g.fatLength] == v[second..second + g.fatLength];
  }

  lemma SameNext(v: seq<Byte>, g: Geometry, p: nat, c: nat)
    requires LaidOut(g, |v|) && g.DataStart() <= p < |v| && g.HasSlot(c)
    ensures Next(Flipped(v, p), g, c) == Next(v, g, c)
  {
    MetadataInside(g, |v|);
  }

  lemma {:induction false} SameWalk(v: seq<Byte>, g: Geometry, p: nat, c: nat, seen: set<nat>)
    requires LaidOut(g, |v|) && g.DataStart() <= p < |v|
    ensures Walk(Flipped(v, p), g, c, seen) == Walk(v, g, c, seen)
    decreases g.clusterCount - |seen|
  {
    hide LaidOut, Next, Flipped;
    if !Rejected(g, c, seen) && g.HasSlot(c) {
      SameNext(v, g, p, c);
      if Links(Next(v, g, c)) {
        SameWalk(v, g, p, Next(v, g, c), seen + {c});
      }
    }
  }

  /** A flip in cluster `hit` is invisible in every other cluster. */
  lemma OtherClusterSame(v: seq<Byte>, g: Geometry, hit: nat, c: nat)
    requires LaidOut(g, |v|) && g.HasCluster(hit) && g.HasCluster(c) && c != hit
    requires g.ClusterStart(hit) + FAULT_OFFSET < |v| && FAULT_OFFSET < g.ClusterBytes()
    ensures ClusterData(Flipped(v, g.ClusterStart(hit) + FAULT_OFFSET), g, c) == ClusterData(v, g, c)
  {
    ClusterInside(g, |v|, c);
    if c < hit {
      ClustersDisjoint(g, c, hit);
    } else {
      ClustersDisjoint(g, hit, c);
    }
  }

  lemma HitClusterFlipped(v: seq<Byte>, g: Geometry, hit: nat)
    requires LaidOut(g, |v|) && g.HasCluster(hit)
    requires g.ClusterStart(hit) + FAULT_OFFSET < |v| && FAULT_OFFSET < g.ClusterBytes()
    ensures ClusterData(Flipped(v, g.ClusterStart(hit) + FAULT_OFFSET), g, hit)
            == Flipped(ClusterData(v, g, hit), FAULT_OFFSET)
  {
    ClusterInside(g, |v|, hit);
  }

  /** Contents of clusters that do not include the one struck. */
  lemma {:induction false} SameContents(v: seq<Byte>, g: Geometry, hit: nat, path: seq<nat>)
    requires LaidOut(g, |v|) && g.HasCluster(hit)
    requires g.ClusterStart(hit) + FAULT_OFFSET < |v| && FAULT_OFFSET < g.ClusterBytes()
    requires forall i :: 0 <= i < |path| ==> g.HasCluster(path[i]) && path[i] != hit
    ensures Contents(Flipped(v, g.ClusterStart(hit) + FAULT_OFFSET), g, path) == Contents(v, g, path)
    decreases |path|
  {
    hide LaidOut, ClusterData, Flipped;
    if path != [] {
      SameContents(v, g, hit, path[..|path| - 1]);
      OtherClusterSame(v, g, hit, path[|path| - 1]);
    }
  }

  /** Contents of a chain that starts with the cluster struck. */
  lemma {:induction false} FlippedContents(v: seq<Byte>, g: Geometry, path: seq<nat>)
    requires LaidOut(g, |v|) && path != [] && g.HasCluster(path[0]) && Distinct(path)
    requires forall i :: 0 <= i < |path| ==> g.HasCluster(path[i])
    requires g.ClusterStart(path[0]) + FAULT_OFFSET < |v| && FAULT_OFFSET < g.ClusterBytes()
    ensures FAULT_OFFSET < |Contents(v, g, path)|
    ensures Contents(Flipped(v, g.ClusterStart(path[0]) + FAULT_OFFSET), g, path)
            == Flipped(Contents(v, g, path), FAULT_OFFSET)
    decreases |path|
  {
    hide LaidOut, ClusterData, Contents, Flipped;
    var hit := path[0];
    var w := Flipped(v, g.ClusterStart(hit) + FAULT_OFFSET);
    var before, last := path[..|path| - 1], path[|path| - 1];
    assert path == before + [last];
    ContentsAppend(v, g, before, last);
    ContentsAppend(w, g, before, last);
    if |path| == 1 {
      EmptyContents(v, g);
      EmptyContents(w, g);
      assert before == [];
      HitClusterFlipped(v, g, hit);
      assert [] + ClusterData(v, g, hit) == ClusterData(v, g, hit) && [] + ClusterData(w, g, hit) == ClusterData(w, g, hit);
    } else {
      FlippedContents(v, g, before);
      OtherClusterSame(v, g, hit, last);
      FlippedInFront(Contents(v, g, before), ClusterData(v, g, last), FAULT_OFFSET);
    }
  }

  lemma FlippedInFront(a: seq<Byte>, b: seq<Byte>, p: nat)
    requires p < |a|
    ensures Flipped(a, p) + b == Flipped(a + b, p)
  {
  }

  lemma StrikesInside(g: Geometry, length: nat, c: nat)
    requires LaidOut(g, length) && g.HasCluster(c)
    ensures FAULT_OFFSET < g.ClusterBytes()
    ensures g.DataStart() <= g.ClusterStart(c) + FAULT_OFFSET < length
  {
    ClusterBytesPositive(g, length);
    ClusterInside(g, length, c);
  }

  // ----- The reader after the fault

  /** A directory whose chain avoids the cluster struck reads the same. */
  lemma SameDirectory(v: seq<Byte>, g: Geometry, hit: nat, first: nat)
    requires LaidOut(g, |v|) && g.HasCluster(hit)
    requires FAULT_OFFSET < g.ClusterBytes() && g.DataStart() <= g.ClusterStart(hit) + FAULT_OFFSET < |v|
    requires Avoids(v, g, first, hit)
    ensures ReadChain(Flipped(v, g.ClusterStart(hit) + FAULT_OFFSET), g, first, None) == ReadChain(v, g, first, None)
  {
    hide LaidOut, Walk, Contents, Flipped;
    SameWalk(v, g, g.ClusterStart(hit) + FAULT_OFFSET, first, {});
    WalkIsChain(v, g, first, {});
    var w := Walk(v, g, first, {});
    if w.Some? {
      SameContents(v, g, hit, w.value);
    }
  }

  /** The chain from `first`, where there is one, does not go through cluster `hit`. */
  predicate Avoids(v: seq<Byte>, g: Geometry, first: nat, hit: nat)
    requires LaidOut(g, |v|)
  {
    var w := Walk(v, g, first, {});
    w.Some? ==> hit !in w.value
  }

  lemma SameRoot(v: seq<Byte>, g: Geometry, p: nat)
    requires LaidOut(g, |v|) && g.DataStart() <= p < |v|
    ensures RootDirectory(Flipped(v, p), g) == RootDirectory(v, g)
  {
    MetadataInside(g, |v|);
  }

  /** The application itself, read after its first cluster was struck. */
  lemma StruckApplication(v: seq<Byte>, g: Geometry, first: nat, size: nat)
    requires LaidOut(g, |v|) && g.HasCluster(first)
    requires FAULT_OFFSET < g.ClusterBytes() && g.DataStart() <= g.ClusterStart(first) + FAULT_OFFSET < |v|
    requires ReadChain(v, g, first, Some(size)).Ok?
    ensures var before := ReadChain(v, g, first, Some(size)).value;
            ReadChain(Flipped(v, g.ClusterStart(first) + FAULT_OFFSET), g, first, Some(size))
            == Ok(if FAULT_OFFSET < |before| then Flipped(before, FAULT_OFFSET) else before)
  {
    hide LaidOut, Walk, Contents, CeilDiv;
    SameWalk(v, g, g.ClusterStart(first) + FAULT_OFFSET, first, {});
    WalkIsChain(v, g, first, {});
    FlippedContents(v, g, Walk(v, g, first, {}).value);
  }

  lemma SameLocation(v: seq<Byte>, g: Geometry, hit: nat)
    requires LaidOut(g, |v|) && g.HasCluster(hit)
    requires FAULT_OFFSET < g.ClusterBytes() && g.DataStart() <= g.ClusterStart(hit) + FAULT_OFFSET < |v|
    requires ResolveIn(v, g).Ok?
    requires Avoids(v, g, ResolveIn(v, g).value.efi, hit) && Avoids(v, g, ResolveIn(v, g).value.boot, hit)
    ensures ResolveIn(Flipped(v, g.ClusterStart(hit) + FAULT_OFFSET), g) == ResolveIn(v, g)
  {
    hide LaidOut, FindEntry, ReadChain, RootDirectory, Flipped, Avoids;
    SameRoot(v, g, g.ClusterStart(hit) + FAULT_OFFSET);
    SameDirectory(v, g, hit, ResolveIn(v, g).value.efi);
    SameDirectory(v, g, hit, ResolveIn(v, g).value.boot);
  }

  /**
   The fault meets the reader. On a volume the reader accepts, when the injector's hit names
   the application's first cluster and neither directory chain goes through that cluster, the
   faulted volume is accepted too, and the application read from it differs exactly in the low
   bit of byte 256. An application of at most 256 bytes is read unchanged: the flip falls into
   the slack behind it.
   */
  lemma FaultMeetsReader(v: seq<Byte>, expectedHidden: nat)
    requires Extract(v, expectedHidden).Ok?
    requires var l := Resolve(v, expectedHidden).value;
             && HitCluster(v) == Ok(l.application.cluster)
             && Avoids(v, l.g, l.efi, l.application.cluster)
             && Avoids(v, l.g, l.boot, l.application.cluster)
    ensures FaultPosition(v).Ok? && FaultPosition(v).value < |v|
    ensures var before := Extract(v, expectedHidden).value;
            Extract(Flipped(v, FaultPosition(v).value), expectedHidden)
            == Ok(if FAULT_OFFSET < |before| then Flipped(before, FAULT_OFFSET) else before)
  {
    hide ParseFat16, LaidOut, ResolveIn, ReadChain, HitCluster, FaultPosition, Flipped, Avoids;
    var l := Resolve(v, expectedHidden).value;
    var first := l.application.cluster;
    ApplicationCluster(v, expectedHidden);
    StrikesInside(l.g, |v|, first);
    FaultPositionInCluster(v, expectedHidden);
    SameMetadata(v, expectedHidden, FaultPosition(v).value);
    SameLocation(v, l.g, first);
    StruckApplication(v, l.g, first, l.application.size);
  }

  lemma ApplicationCluster(v: seq<Byte>, expectedHidden: nat)
    requires Extract(v, expectedHidden).Ok?
    ensures var l := Resolve(v, expectedHidden).value; l.g.HasCluster(l.application.cluster)
  {
    hide ParseFat16, LaidOut, ResolveIn, Contents;
    var l := Resolve(v, expectedHidden).value;
    WalkIsChain(v, l.g, l.application.cluster, {});
  }
}
