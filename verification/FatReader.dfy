/** Directory lookup and extraction of the boot application from a FAT16 volume. */
module FatReader {
  import opened Bytes
  import opened FatVolume
  import opened FatChain

  const ENTRY_SIZE: nat := 32
  const EFI_NAME: seq<Byte> := [0x45, 0x46, 0x49, 0x20, 0x20, 0x20, 0x20, 0x20, 0x20, 0x20, 0x20]
  const BOOT_NAME: seq<Byte> := [0x42, 0x4f, 0x4f, 0x54, 0x20, 0x20, 0x20, 0x20, 0x20, 0x20, 0x20]
  const APPLICATION_NAME: seq<Byte> := [0x42, 0x4f, 0x4f, 0x54, 0x41, 0x41, 0x36, 0x34, 0x45, 0x46, 0x49]

  datatype Entry = Entry(cluster: nat, size: nat, directory: bool)

  predicate HasEntry(dir: seq<Byte>, k: nat) { ENTRY_SIZE * k + ENTRY_SIZE <= |dir| }

  function EntryBytes(dir: seq<Byte>, k: nat): (e: seq<Byte>)
    requires HasEntry(dir, k)
    ensures |e| == ENTRY_SIZE
  {
    dir[ENTRY_SIZE * k..ENTRY_SIZE * k + ENTRY_SIZE]
  }

  /** A slot in use, not a long-name slot, with this short name. */
  predicate Named(e: seq<Byte>, name: seq<Byte>)
    requires |e| == ENTRY_SIZE
  {
    e[0] != 0xe5 && e[11] != 0x0f && e[..11] == name
  }

  function Decode(e: seq<Byte>): (r: Entry)
    requires |e| == ENTRY_SIZE
  {
    Entry(Le16(e, 26), Le32(e, 28), e[11] / 0x10 % 2 == 1)
  }

  predicate WellTyped(e: seq<Byte>, isDirectory: bool)
    requires |e| == ENTRY_SIZE
  {
    Decode(e).directory == isDirectory && Le16(e, 20) == 0
  }

  /** The scan from slot `k` on, having found `found` so far. */
  function ScanEntries(dir: seq<Byte>, name: seq<Byte>, isDirectory: bool, k: nat, found: Option<Entry>)
    : (r: Result<Option<Entry>>)
    decreases |dir| - ENTRY_SIZE * k
  {
    if !HasEntry(dir, k) then Ok(found)
    else
      var e := EntryBytes(dir, k);
      if e[0] == 0 then Ok(found)
      else if !Named(e, name) then ScanEntries(dir, name, isDirectory, k + 1, found)
      else if !WellTyped(e, isDirectory) || found.Some? then Err
      else ScanEntries(dir, name, isDirectory, k + 1, Some(Decode(e)))
  }

  function FindEntry(dir: seq<Byte>, name: seq<Byte>, isDirectory: bool): (r: Result<Entry>)
  {
    var found :- ScanEntries(dir, name, isDirectory, 0, None);
    if found.None? || found.value.directory != isDirectory || found.value.cluster < 2 then Err else Ok(found.value)
  }

  method FindFatEntry(dir: seq<Byte>, name: seq<Byte>, isDirectory: bool) returns (r: Result<Entry>)
    ensures r == FindEntry(dir, name, isDirectory)
  {
    var found: Option<Entry> := None;
    var k: nat := 0;
    while HasEntry(dir, k)
      invariant ScanEntries(dir, name, isDirectory, k, found) == ScanEntries(dir, name, isDirectory, 0, None)
      decreases |dir| - ENTRY_SIZE * k
    {
      var e := EntryBytes(dir, k);
      if e[0] == 0 {
        break;
      }
      if Named(e, name) {
        if !WellTyped(e, isDirectory) || found.Some? {
          return Err;
        }
        found := Some(Decode(e));
      }
      k := k + 1;
    }
    if found.None? || found.value.directory != isDirectory || found.value.cluster < 2 {
      return Err;
    }
    return Ok(found.value);
  }

  // ----- What a lookup means

  /** Slot `k` comes before the end marker. */
  predicate Live(dir: seq<Byte>, k: nat)
  {
    HasEntry(dir, k) && forall j: nat :: j <= k ==> EntryBytes(dir, j)[0] != 0
  }

  predicate Match(dir: seq<Byte>, name: seq<Byte>, k: nat) { Live(dir, k) && Named(EntryBytes(dir, k), name) }

  ghost predicate NoMatchFrom(dir: seq<Byte>, name: seq<Byte>, k: nat)
  {
    forall m: nat :: k <= m ==> !Match(dir, name, m)
  }

  ghost predicate OnlyMatchFrom(dir: seq<Byte>, name: seq<Byte>, k: nat, m: nat)
  {
    k <= m && Match(dir, name, m) && forall j: nat :: k <= j && Match(dir, name, j) ==> j == m
  }

  /** The scan accepts at most one match, and that one must be well typed. */
  lemma {:induction false} ScanExact(dir: seq<Byte>, name: seq<Byte>, isDirectory: bool, k: nat, found: Option<Entry>)
    requires forall j: nat :: j < k ==> HasEntry(dir, j) && EntryBytes(dir, j)[0] != 0
    ensures var r := ScanEntries(dir, name, isDirectory, k, found);
            && (NoMatchFrom(dir, name, k) ==> r == Ok(found))
            && (forall m: nat :: OnlyMatchFrom(dir, name, k, m) ==>
                  r == if WellTyped(EntryBytes(dir, m), isDirectory) && found.None?
                       then Ok(Some(Decode(EntryBytes(dir, m)))) else Err)
            && (r.Ok? ==> NoMatchFrom(dir, name, k) || exists m: nat :: OnlyMatchFrom(dir, name, k, m))
    decreases |dir| - ENTRY_SIZE * k
  {
    if !HasEntry(dir, k) || EntryBytes(dir, k)[0] == 0 {
      assert NoMatchFrom(dir, name, k) by {
        forall m: nat | k <= m ensures !Live(dir, m) {
          assert HasEntry(dir, m) ==> HasEntry(dir, k);
        }
      }
    } else {
      assert Live(dir, k);
      var e := EntryBytes(dir, k);
      var found' := if Named(e, name) then Some(Decode(e)) else found;
      ScanExact(dir, name, isDirectory, k + 1, found');
      FirstSlot(dir, name, k);
    }
  }

  /** How the matches from `k` on relate to those after it. */
  lemma FirstSlot(dir: seq<Byte>, name: seq<Byte>, k: nat)
    requires Live(dir, k)
    ensures NoMatchFrom(dir, name, k) <==> NoMatchFrom(dir, name, k + 1) && !Match(dir, name, k)
    ensures OnlyMatchFrom(dir, name, k, k) <==> NoMatchFrom(dir, name, k + 1) && Match(dir, name, k)
    ensures forall m: nat :: m != k ==>
              (OnlyMatchFrom(dir, name, k, m) <==> OnlyMatchFrom(dir, name, k + 1, m) && !Match(dir, name, k))
  {
  }

  /**
   A lookup succeeds if and only if exactly one slot before the end marker carries the
   name and that slot has the asked type, a zero high word and a data cluster; it returns
   that slot.
   */
  lemma FindEntryExact(dir: seq<Byte>, name: seq<Byte>, isDirectory: bool)
    ensures var r := FindEntry(dir, name, isDirectory);
            && (forall m: nat :: OnlyMatchFrom(dir, name, 0, m) ==>
                  var e := EntryBytes(dir, m);
                  r == if WellTyped(e, isDirectory) && Decode(e).cluster >= 2 then Ok(Decode(e)) else Err)
            && ((forall m: nat :: !OnlyMatchFrom(dir, name, 0, m)) ==> r.Err?)
  {
    ScanExact(dir, name, isDirectory, 0, None);
  }

  // ----- Extraction

  /** Where the reader finds the application: first clusters of both directories, and the entry. */
  datatype Location = Location(g: Geometry, efi: nat, boot: nat, application: Entry)

  function RootDirectory(v: seq<Byte>, g: Geometry): (s: seq<Byte>)
    requires LaidOut(g, |v|)
  {
    MetadataInside(g, |v|);
    v[g.rootStart..g.rootStart + g.rootLength]
  }

  /** Path resolution below an accepted volume. */
  function ResolveIn(v: seq<Byte>, g: Geometry): (r: Result<Location>)
    requires LaidOut(g, |v|)
  {
    var efi :- FindEntry(RootDirectory(v, g), EFI_NAME, true);
    var efiDir :- ReadChain(v, g, efi.cluster, None);
    var boot :- FindEntry(efiDir, BOOT_NAME, true);
    var bootDir :- ReadChain(v, g, boot.cluster, None);
    var application :- FindEntry(bootDir, APPLICATION_NAME, false);
    if application.size == 0 then Err else Ok(Location(g, efi.cluster, boot.cluster, application))
  }

  function Resolve(v: seq<Byte>, expectedHidden: nat): (r: Result<Location>)
    ensures r.Ok? ==> LaidOut(r.value.g, |v|) && ParseFat16(v, expectedHidden) == Ok(r.value.g)
  {
    var g :- ParseFat16(v, expectedHidden);
    ParsedLaidOut(v, expectedHidden);
    ResolveIn(v, g)
  }

  function Extract(v: seq<Byte>, expectedHidden: nat): (r: Result<seq<Byte>>)
  {
    var l :- Resolve(v, expectedHidden);
    ReadChain(v, l.g, l.application.cluster, Some(l.application.size))
  }

  method ExtractBootApplication(v: seq<Byte>, expectedHidden: nat) returns (r: Result<seq<Byte>>)
    ensures r == Extract(v, expectedHidden)
  {
    hide ParseFat16, FindEntry;
    var parsed := ParseFat16(v, expectedHidden);
    if parsed.Err? {
      return Err;
    }
    var g := parsed.value;
    ParsedLaidOut(v, expectedHidden);
    MetadataInside(g, |v|);
    hide LaidOut, ReadChain;
    var efi := FindFatEntry(v[g.rootStart..g.rootStart + g.rootLength], EFI_NAME, true);
    if efi.Err? {
      return Err;
    }
    var efiDir := ReadFatChain(v, g, efi.value.cluster, None);
    if efiDir.Err? {
      return Err;
    }
    var boot := FindFatEntry(efiDir.value, BOOT_NAME, true);
    if boot.Err? {
      return Err;
    }
    var bootDir := ReadFatChain(v, g, boot.value.cluster, None);
    if bootDir.Err? {
      return Err;
    }
    var application := FindFatEntry(bootDir.value, APPLICATION_NAME, false);
    if application.Err? || application.value.size == 0 {
      return Err;
    }
    r := ReadFatChain(v, g, application.value.cluster, Some(application.value.size));
  }

  /** An extracted application has exactly the size its directory entry states. */
  lemma ExtractedSize(v: seq<Byte>, expectedHidden: nat)
    requires Extract(v, expectedHidden).Ok?
    ensures |Extract(v, expectedHidden).value| == Resolve(v, expectedHidden).value.application.size > 0
  {
    hide ParseFat16, FindEntry;
    var l := Resolve(v, expectedHidden).value;
    ClusterBytesPositive(l.g, |v|);
    WalkIsChain(v, l.g, l.application.cluster, {});
    ChainIsRead(v, l.g, l.application.cluster, Some(l.application.size), Walk(v, l.g, l.application.cluster, {}).value);
  }
}
