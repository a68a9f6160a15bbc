/** The boot sector of a FAT16 volume and the regions it lays out. */
module FatVolume {
  import opened Bytes

  const SECTOR: nat := 512

  datatype Geometry = Geometry(
    bytesPerSector: nat,
    sectorsPerCluster: nat,
    fatStart: nat,
    fatLength: nat,
    rootStart: nat,
    rootLength: nat,
    dataStartSector: nat,
    clusterCount: nat)
  {
    function ClusterBytes(): (n: nat) { sectorsPerCluster * bytesPerSector }
    function DataStart(): (n: nat) { dataStartSector * bytesPerSector }

    /** Byte offset of cluster `c` in the volume. */
    function ClusterStart(c: nat): (n: nat)
      requires c >= 2
    {
      (dataStartSector + (c - 2) * sectorsPerCluster) * bytesPerSector
    }

    predicate HasCluster(c: nat) { 2 <= c < clusterCount + 2 }
    predicate HasSlot(c: nat) { 2 * c + 2 <= fatLength }
  }

  function Le16(b: seq<Byte>, o: nat): (r: nat)
    requires o + 2 <= |b|
    ensures r < 0x1_0000
  {
    b[o] as int + 256 * b[o + 1] as int
  }

  function Le32(b: seq<Byte>, o: nat): (r: nat)
    requires o + 4 <= |b|
    ensures r < 0x1_0000_0000
  {
    Le16(b, o) + 0x1_0000 * Le16(b, o + 2)
  }

  predicate PowerOfTwoByte(n: nat)
  {
    n == 1 || n == 2 || n == 4 || n == 8 || n == 16 || n == 32 || n == 64 || n == 128
  }

  function CeilDiv(a: nat, b: nat): (q: nat)
    requires b > 0
  {
    (a + b - 1) / b
  }

  /** A range of the volume, absent when it does not lie inside. */
  function Get(v: seq<Byte>, from: nat, to: nat): (r: Option<seq<Byte>>)
  {
    if from <= to <= |v| then Some(v[from..to]) else None
  }

  const FAT16_TAG: seq<Byte> := [0x46, 0x41, 0x54, 0x31, 0x36, 0x20, 0x20, 0x20]

  function TotalSectors(boot: seq<Byte>): (n: nat)
    requires |boot| == SECTOR
  {
    if Le16(boot, 19) != 0 then Le16(boot, 19) else Le32(boot, 32)
  }

  function RootSectors(boot: seq<Byte>): (n: nat)
    requires |boot| >= 24 && Le16(boot, 11) > 0
  {
    CeilDiv(Le16(boot, 17) * 32, Le16(boot, 11))
  }

  function FatSectors(copies: nat, sectors: nat): (n: nat) { copies * sectors }

  /** First sector after the reserved sectors, the FAT copies and the root directory. */
  function DataStartSector(boot: seq<Byte>): (n: nat)
    requires |boot| >= 24 && Le16(boot, 11) > 0
  {
    Le16(boot, 14) + FatSectors(boot[16], Le16(boot, 22)) + RootSectors(boot)
  }

  predicate BootSectorAccepted(boot: seq<Byte>, length: nat, expectedHidden: nat)
    requires |boot| == SECTOR
  {
    && Le16(boot, 11) == SECTOR
    && PowerOfTwoByte(boot[13])
    && Le16(boot, 14) != 0
    && boot[16] == 2
    && Le16(boot, 17) != 0
    && Le16(boot, 22) != 0
    && Le32(boot, 28) == expectedHidden
    && TotalSectors(boot) * SECTOR == length
    && boot[54..62] == FAT16_TAG
    && boot[510..512] == [0x55, 0xaa]
  }

  /** What the boot sector alone says about a volume of `length` bytes. */
  function BootGeometry(boot: seq<Byte>, length: nat, expectedHidden: nat): (r: Result<Geometry>)
    requires |boot| == SECTOR
  {
    if !BootSectorAccepted(boot, length, expectedHidden) then Err
    else
      var reserved, sectorsPerFat := Le16(boot, 14), Le16(boot, 22);
      var rootStartSector := reserved + 2 * sectorsPerFat;
      var dataStartSector := DataStartSector(boot);
      if TotalSectors(boot) < dataStartSector then Err
      else
        var clusterCount := (TotalSectors(boot) - dataStartSector) / boot[13];
        if !(4085 <= clusterCount < 65525) then Err
        else if rootStartSector * SECTOR + RootSectors(boot) * SECTOR > length then Err
        else
          Ok(Geometry(SECTOR, boot[13], reserved * SECTOR, sectorsPerFat * SECTOR,
                      rootStartSector * SECTOR, RootSectors(boot) * SECTOR, dataStartSector, clusterCount))
  }

  /** Validation of a FAT16 volume; the arithmetic stays far below the machine word. */
  function ParseFat16(v: seq<Byte>, expectedHidden: nat): (r: Result<Geometry>)
  {
    if |v| < 4 * 1024 * 1024 || |v| % SECTOR != 0 then Err
    else
      var g :- BootGeometry(v[..SECTOR], |v|, expectedHidden);
      var second := g.fatStart + g.fatLength;
      if Get(v, g.fatStart, second) != Get(v, second, second + g.fatLength) then Err else Ok(g)
  }

  /** The layout facts of an accepted volume, free of the boot sector. */
  predicate LaidOut(g: Geometry, length: nat)
  {
    && g.bytesPerSector == SECTOR
    && 1 <= g.sectorsPerCluster <= 128
    && 4085 <= g.clusterCount < 65525
    && SECTOR <= g.fatStart && SECTOR <= g.fatLength
    && g.fatStart + 2 * g.fatLength == g.rootStart
    && SECTOR <= g.rootLength
    && g.rootStart + g.rootLength == g.DataStart()
    && g.DataStart() + g.clusterCount * g.ClusterBytes() <= length
  }

  lemma DivisionBound(a: nat, b: nat)
    requires b > 0
    ensures a / b * b <= a
  {
  }

  lemma BootGeometryLaidOut(boot: seq<Byte>, length: nat, expectedHidden: nat)
    requires |boot| == SECTOR
    ensures var r := BootGeometry(boot, length, expectedHidden); r.Ok? ==> LaidOut(r.value, length)
  {
    var r := BootGeometry(boot, length, expectedHidden);
    if r.Ok? {
      var g := r.value;
      var free := TotalSectors(boot) - g.dataStartSector;
      assert g.clusterCount == free / g.sectorsPerCluster;
      DivisionBound(free, g.sectorsPerCluster);
      ScaleSectors(g.clusterCount, g.sectorsPerCluster, free);
    }
  }

  lemma ScaleSectors(count: nat, perCluster: nat, free: nat)
    requires count * perCluster <= free
    ensures count * (perCluster * SECTOR) <= free * SECTOR
  {
    assert count * (perCluster * SECTOR) == (count * perCluster) * SECTOR;
  }

  /** A multiple of a common width separates different indices. */
  lemma IndexedRanges(c: nat, d: nat, width: nat)
    requires c < d
    ensures c * width + width <= d * width
  {
    var more := d - c - 1;
    assert d * width == (c + 1 + more) * width == c * width + width + more * width;
  }

  lemma ClusterStartLinear(g: Geometry, c: nat)
    requires c >= 2
    ensures g.ClusterStart(c) == g.DataStart() + (c - 2) * g.ClusterBytes()
  {
    assert (c - 2) * (g.sectorsPerCluster * g.bytesPerSector) == ((c - 2) * g.sectorsPerCluster) * g.bytesPerSector;
  }

  /** Every cluster lies inside the volume, behind all metadata. */
  lemma ClusterInside(g: Geometry, length: nat, c: nat)
    requires LaidOut(g, length) && g.HasCluster(c)
    ensures g.DataStart() <= g.ClusterStart(c)
    ensures g.ClusterStart(c) + g.ClusterBytes() <= length
  {
    ClusterStartLinear(g, c);
    IndexedRanges(c - 2, g.clusterCount, g.ClusterBytes());
    assert (c - 2) * g.ClusterBytes() >= 0;
  }

  /** Different clusters do not overlap. */
  lemma ClustersDisjoint(g: Geometry, c: nat, d: nat)
    requires 2 <= c < d
    ensures g.ClusterStart(c) + g.ClusterBytes() <= g.ClusterStart(d)
  {
    ClusterStartLinear(g, c);
    ClusterStartLinear(g, d);
    IndexedRanges(c - 2, d - 2, g.ClusterBytes());
  }

  /**
   Geometry soundness: on every accepted volume the boot sector, the two equal FAT copies,
   the root directory and the clusters 2 to count + 1 lie inside it one after the other.
   */
  lemma GeometrySound(v: seq<Byte>, expectedHidden: nat)
    requires ParseFat16(v, expectedHidden).Ok?
    ensures var g := ParseFat16(v, expectedHidden).value;
            && LaidOut(g, |v|)
            && v[g.fatStart..g.fatStart + g.fatLength] == v[g.fatStart + g.fatLength..g.rootStart]
            && (forall c: nat :: g.HasCluster(c) ==>
                  g.rootStart + g.rootLength <= g.ClusterStart(c) && g.ClusterStart(c) + g.ClusterBytes() <= |v|)
            && (forall c: nat, d: nat :: g.HasCluster(c) && g.HasCluster(d) && c < d ==>
                  g.ClusterStart(c) + g.ClusterBytes() <= g.ClusterStart(d))
  {
    BootGeometryLaidOut(v[..SECTOR], |v|, expectedHidden);
    var g := ParseFat16(v, expectedHidden).value;
    forall c: nat | g.HasCluster(c)
      ensures g.rootStart + g.rootLength <= g.ClusterStart(c) && g.ClusterStart(c) + g.ClusterBytes() <= |v|
    {
      ClusterInside(g, |v|, c);
    }
    forall c: nat, d: nat | g.HasCluster(c) && g.HasCluster(d) && c < d
      ensures g.ClusterStart(c) + g.ClusterBytes() <= g.ClusterStart(d)
    {
      ClustersDisjoint(g, c, d);
    }
    MetadataInside(g, |v|);
  }

  lemma ParsedLaidOut(v: seq<Byte>, expectedHidden: nat)
    ensures ParseFat16(v, expectedHidden).Ok? ==> LaidOut(ParseFat16(v, expectedHidden).value, |v|)
  {
    hide LaidOut, BootGeometry;
    if |v| >= SECTOR {
      BootGeometryLaidOut(v[..SECTOR], |v|, expectedHidden);
    }
  }

  lemma MetadataInside(g: Geometry, length: nat)
    requires LaidOut(g, length)
    ensures g.rootStart + g.rootLength <= length
  {
    assert g.clusterCount * g.ClusterBytes() >= 0;
  }
}
