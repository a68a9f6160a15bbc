/**
 ISO 9660 directories (sections 8.4 and 9.1 of ECMA-119), walked by two programs: the
 artifact inspector, which checks every record on its way, and the fault injector, which
 stops at the first record that fits.
 */
module IsoDirectory {
  import opened Bytes
  import opened FatVolume

  const ISO_SECTOR: nat := 2048
  const INSPECTOR_LIMIT: nat := 128 * 1024
  const INJECTOR_LIMIT: nat := 64 * 1024
  const VERSION_MARK: Byte := 0x3b

  datatype Extent = Extent(offset: nat, length: nat)
  datatype IsoEntry = IsoEntry(extent: Extent, directory: bool)

  function Be32(b: seq<Byte>, o: nat): (r: nat)
    requires o + 4 <= |b|
  {
    0x100_0000 * b[o] as int + 0x1_0000 * b[o + 1] as int + 256 * b[o + 2] as int + b[o + 3] as int
  }

  predicate DirectoryFlag(record: seq<Byte>)
    requires |record| > 25
  {
    record[25] / 2 % 2 == 1
  }

  // ----- Records

  predicate RecordSized(record: seq<Byte>) { |record| >= 34 && 34 <= record[0] <= |record| }

  /** The injector's reading of a record: the little-endian fields. */
  function InjectorRecord(iso: seq<Byte>, record: seq<Byte>): (r: Result<Extent>)
  {
    if !RecordSized(record) then Err
    else
      var offset, length := Le32(record, 2) * ISO_SECTOR, Le32(record, 10);
      if length == 0 || offset + length > |iso| then Err else Ok(Extent(offset, length))
  }

  /** The inspector's reading: both byte orders have to agree. */
  function InspectorRecord(iso: seq<Byte>, record: seq<Byte>): (r: Result<IsoEntry>)
  {
    if !RecordSized(record) then Err
    else if Le32(record, 2) != Be32(record, 6) || Le32(record, 10) != Be32(record, 14) || Le32(record, 10) == 0 then Err
    else
      var offset, length := Le32(record, 2) * ISO_SECTOR, Le32(record, 10);
      if offset + length > |iso| then Err else Ok(IsoEntry(Extent(offset, length), DirectoryFlag(record)))
  }

  /** What the inspector accepts the injector accepts, with the same extent. */
  lemma RecordsAgree(iso: seq<Byte>, record: seq<Byte>)
    requires InspectorRecord(iso, record).Ok?
    ensures InjectorRecord(iso, record) == Ok(InspectorRecord(iso, record).value.extent)
    ensures InspectorRecord(iso, record).value.directory == DirectoryFlag(record)
  {
  }

  /** A name up to its version mark. */
  function CutVersion(name: seq<Byte>): (r: seq<Byte>)
    ensures r <= name && VERSION_MARK !in r
    ensures r != name ==> name[|r|] == VERSION_MARK
  {
    if name == [] || name[0] == VERSION_MARK then []
    else [name[0]] + CutVersion(name[1..])
  }

  /** The record at `offset` and its name; None when either is cut off. */
  function RecordAt(bytes: seq<Byte>, offset: nat): (r: Option<(seq<Byte>, seq<Byte>)>)
    requires offset < |bytes| && bytes[offset] != 0
    ensures r.Some? ==> |r.value.0| > 32
  {
    var n := bytes[offset] as int;
    if offset + n > |bytes| then None
    else
      var record: seq<Byte> := bytes[offset..offset + n];
      if n <= 32 || 33 + record[32] > n then None
      else Some((record, CutVersion(record[33..33 + record[32] as int])))
  }

  /** A zero length byte pads the rest of the sector: the walk moves to the next boundary. */
  function NextSector(offset: nat): (r: nat)
    ensures offset < r <= offset + ISO_SECTOR && r % ISO_SECTOR == 0
  {
    (offset + ISO_SECTOR) / ISO_SECTOR * ISO_SECTOR
  }

  // ----- The two walks

  function InspectFrom(iso: seq<Byte>, bytes: seq<Byte>, name: seq<Byte>, isDirectory: bool, offset: nat,
                       found: Option<IsoEntry>): (r: Result<Option<IsoEntry>>)
    decreases |bytes| - offset
  {
    if offset >= |bytes| then Ok(found)
    else if bytes[offset] == 0 then InspectFrom(iso, bytes, name, isDirectory, NextSector(offset), found)
    else
      var at := RecordAt(bytes, offset);
      if at.None? then Err
      else
        var entry :- InspectorRecord(iso, at.value.0);
        var next := offset + bytes[offset] as int;
        if at.value.1 == name && entry.directory == isDirectory then
          if found.Some? then Err else InspectFrom(iso, bytes, name, isDirectory, next, Some(entry))
        else InspectFrom(iso, bytes, name, isDirectory, next, found)
  }

  function InjectFrom(iso: seq<Byte>, bytes: seq<Byte>, name: seq<Byte>, isDirectory: bool, offset: nat)
    : (r: Result<Extent>)
    decreases |bytes| - offset
  {
    if offset >= |bytes| then Err
    else if bytes[offset] == 0 then InjectFrom(iso, bytes, name, isDirectory, NextSector(offset))
    else
      var at := RecordAt(bytes, offset);
      if at.None? then Err
      else if at.value.1 == name && DirectoryFlag(at.value.0) == isDirectory then InjectorRecord(iso, at.value.0)
      else InjectFrom(iso, bytes, name, isDirectory, offset + bytes[offset] as int)
  }

  function Inspect(iso: seq<Byte>, dir: IsoEntry, name: seq<Byte>, isDirectory: bool): (r: Result<IsoEntry>)
  {
    if !dir.directory || dir.extent.length == 0 || dir.extent.length > INSPECTOR_LIMIT then Err
    else if dir.extent.offset + dir.extent.length > |iso| then Err
    else
      var found :- InspectFrom(iso, FileBytes(iso, dir.extent), name, isDirectory, 0, None);
      if found.None? then Err else Ok(found.value)
  }

  function Inject(iso: seq<Byte>, dir: Extent, name: seq<Byte>, isDirectory: bool): (r: Result<Extent>)
  {
    if dir.length == 0 || dir.length > INJECTOR_LIMIT || dir.offset + dir.length > |iso| then Err
    else InjectFrom(iso, FileBytes(iso, dir), name, isDirectory, 0)
  }

  function FileBytes(iso: seq<Byte>, e: Extent): (s: seq<Byte>)
    requires e.offset + e.length <= |iso|
  {
    iso[e.offset..e.offset + e.length]
  }

  method IsoFind(iso: seq<Byte>, dir: IsoEntry, name: seq<Byte>, isDirectory: bool) returns (r: Result<IsoEntry>)
    ensures r == Inspect(iso, dir, name, isDirectory)
  {
    hide InspectorRecord, RecordAt, NextSector;
    if !dir.directory || dir.extent.length == 0 || dir.extent.length > INSPECTOR_LIMIT {
      return Err;
    }
    if dir.extent.offset + dir.extent.length > |iso| {
      return Err;
    }
    var bytes := FileBytes(iso, dir.extent);
    var offset: nat := 0;
    var found: Option<IsoEntry> := None;
    while offset < |bytes|
      invariant InspectFrom(iso, bytes, name, isDirectory, offset, found)
                == InspectFrom(iso, bytes, name, isDirectory, 0, None)
      decreases |bytes| - offset
    {
      if bytes[offset] == 0 {
        offset := NextSector(offset);
        continue;
      }
      var at := RecordAt(bytes, offset);
      if at.None? {
        return Err;
      }
      var entry := InspectorRecord(iso, at.value.0);
      if entry.Err? {
        return Err;
      }
      if at.value.1 == name && entry.value.directory == isDirectory {
        if found.Some? {
          return Err;
        }
        found := Some(entry.value);
      }
      offset := offset + bytes[offset] as int;
    }
    if found.None? {
      return Err;
    }
    return Ok(found.value);
  }

  method FindIsoEntry(iso: seq<Byte>, dir: Extent, name: seq<Byte>, isDirectory: bool) returns (r: Result<Extent>)
    ensures r == Inject(iso, dir, name, isDirectory)
  {
    hide InjectorRecord, RecordAt, NextSector;
    if dir.length == 0 || dir.length > INJECTOR_LIMIT || dir.offset + dir.length > |iso| {
      return Err;
    }
    var bytes := FileBytes(iso, dir);
    var offset: nat := 0;
    while offset < |bytes|
      invariant InjectFrom(iso, bytes, name, isDirectory, offset) == InjectFrom(iso, bytes, name, isDirectory, 0)
      decreases |bytes| - offset
    {
      if bytes[offset] == 0 {
        offset := NextSector(offset);
        continue;
      }
      var at := RecordAt(bytes, offset);
      if at.None? {
        return Err;
      }
      if at.value.1 == name && DirectoryFlag(at.value.0) == isDirectory {
        return InjectorRecord(iso, at.value.0);
      }
      offset := offset + bytes[offset] as int;
    }
    return Err;
  }

  // ----- What the inspector finds

  datatype Listed = Listed(name: seq<Byte>, entry: IsoEntry)

  /** The record at `offset` as the inspector reads it; None when it is not well formed. */
  function ListedAt(iso: seq<Byte>, bytes: seq<Byte>, offset: nat): (r: Option<Listed>)
    requires offset < |bytes| && bytes[offset] != 0
  {
    var at := RecordAt(bytes, offset);
    if at.None? || InspectorRecord(iso, at.value.0).Err? then None
    else Some(Listed(at.value.1, InspectorRecord(iso, at.value.0).value))
  }

  /** The records of a directory, each behind the one before, zero bytes skipped to the next sector. */
  function Records(iso: seq<Byte>, bytes: seq<Byte>, offset: nat): (r: seq<Option<Listed>>)
    decreases |bytes| - offset
  {
    if offset >= |bytes| then []
    else if bytes[offset] == 0 then Records(iso, bytes, NextSector(offset))
    else [ListedAt(iso, bytes, offset)] + Records(iso, bytes, offset + bytes[offset] as int)
  }

  predicate WellFormed(records: seq<Option<Listed>>)
  {
    forall i :: 0 <= i < |records| ==> records[i].Some?
  }

  predicate Named(x: Option<Listed>, name: seq<Byte>, isDirectory: bool)
  {
    x.Some? && x.value.name == name && x.value.entry.directory == isDirectory
  }

  /** No record has the name and type. */
  predicate NoneNamed(records: seq<Option<Listed>>, name: seq<Byte>, isDirectory: bool)
  {
    forall i :: 0 <= i < |records| ==> !Named(records[i], name, isDirectory)
  }

  /** Record `i`, and no other, has the name and type. */
  predicate OnlyNamed(records: seq<Option<Listed>>, name: seq<Byte>, isDirectory: bool, i: nat)
  {
    forall k :: 0 <= k < |records| ==> (Named(records[k], name, isDirectory) <==> k == i)
  }

  /** Exactly one record has the name and type, and it is `e`. */
  predicate OneNamed(records: seq<Option<Listed>>, name: seq<Byte>, isDirectory: bool, e: IsoEntry)
  {
    exists i: nat :: i < |records| && OnlyNamed(records, name, isDirectory, i) && records[i].Some? && records[i].value.entry == e
  }

  lemma WellFormedFirst(x: Option<Listed>, rest: seq<Option<Listed>>)
    ensures WellFormed([x] + rest) <==> x.Some? && WellFormed(rest)
  {
    var all := [x] + rest;
    assert all[0] == x && forall i :: 0 <= i < |rest| ==> rest[i] == all[i + 1];
  }

  lemma NoneFirst(x: Option<Listed>, rest: seq<Option<Listed>>, name: seq<Byte>, isDirectory: bool)
    ensures NoneNamed([x] + rest, name, isDirectory) <==> !Named(x, name, isDirectory) && NoneNamed(rest, name, isDirectory)
  {
    hide Named;
    var all := [x] + rest;
    assert all[0] == x && forall i :: 0 <= i < |rest| ==> rest[i] == all[i + 1];
  }

  lemma OnlyFirst(x: Option<Listed>, rest: seq<Option<Listed>>, name: seq<Byte>, isDirectory: bool, i: nat)
    ensures OnlyNamed([x] + rest, name, isDirectory, i) <==>
              if i == 0 then Named(x, name, isDirectory) && NoneNamed(rest, name, isDirectory)
              else !Named(x, name, isDirectory) && OnlyNamed(rest, name, isDirectory, i - 1)
  {
    hide Named;
    var all := [x] + rest;
    assert all[0] == x && forall i :: 0 <= i < |rest| ==> rest[i] == all[i + 1];
  }

  lemma OneFirst(x: Option<Listed>, rest: seq<Option<Listed>>, name: seq<Byte>, isDirectory: bool, e: IsoEntry)
    requires x.Some?
    ensures OneNamed([x] + rest, name, isDirectory, e) <==>
              if Named(x, name, isDirectory) then x.value.entry == e && NoneNamed(rest, name, isDirectory)
              else OneNamed(rest, name, isDirectory, e)
  {
    hide Named, OnlyNamed, NoneNamed;
    var all := [x] + rest;
    assert all[0] == x && forall i :: 0 <= i < |rest| ==> rest[i] == all[i + 1];
    if OneNamed(all, name, isDirectory, e) {
      var i: nat :| i < |all| && OnlyNamed(all, name, isDirectory, i) && all[i].Some? && all[i].value.entry == e;
      OnlyFirst(x, rest, name, isDirectory, i);
    }
    if OneNamed(rest, name, isDirectory, e) {
      var i: nat :| i < |rest| && OnlyNamed(rest, name, isDirectory, i) && rest[i].Some? && rest[i].value.entry == e;
      OnlyFirst(x, rest, name, isDirectory, i + 1);
      assert all[i + 1].Some?;
    }
    OnlyFirst(x, rest, name, isDirectory, 0);
  }

  /** The walk, by what the records from `offset` on are. */
  lemma {:induction false} InspectFromExactly(iso: seq<Byte>, bytes: seq<Byte>, name: seq<Byte>, isDirectory: bool, offset: nat,
                                              found: Option<IsoEntry>, e: IsoEntry)
    ensures var r, records := InspectFrom(iso, bytes, name, isDirectory, offset, found), Records(iso, bytes, offset);
            && (r.Ok? ==> WellFormed(records))
            && (WellFormed(records) && found.Some? ==> r == if NoneNamed(records, name, isDirectory) then Ok(found) else Err)
            && (WellFormed(records) && found.None? ==> (r == Ok(Some(e)) <==> OneNamed(records, name, isDirectory, e)))
    decreases |bytes| - offset
  {
    hide InspectorRecord, RecordAt, NextSector, WellFormed, NoneNamed, OneNamed;
    if offset >= |bytes| {
      NoRecords(name, isDirectory, e);
    } else if bytes[offset] == 0 {
      InspectFromExactly(iso, bytes, name, isDirectory, NextSector(offset), found, e);
    } else {
      var next := offset + bytes[offset] as int;
      var x, rest := ListedAt(iso, bytes, offset), Records(iso, bytes, next);
      WellFormedFirst(x, rest);
      if x.Some? {
        InspectFromExactly(iso, bytes, name, isDirectory, next, found, e);
        InspectFromExactly(iso, bytes, name, isDirectory, next, Some(x.value.entry), e);
        NoneFirst(x, rest, name, isDirectory);
        OneFirst(x, rest, name, isDirectory, e);
      }
    }
  }

  lemma NoRecords(name: seq<Byte>, isDirectory: bool, e: IsoEntry)
    ensures WellFormed([]) && NoneNamed([], name, isDirectory) && !OneNamed([], name, isDirectory, e)
  {
  }

  /** The directory is one the inspector reads at all. */
  predicate Readable(iso: seq<Byte>, dir: IsoEntry)
  {
    dir.directory && 0 < dir.extent.length <= INSPECTOR_LIMIT && dir.extent.offset + dir.extent.length <= |iso|
  }

  /**
   The inspector finds an entry if and only if the directory can be read, every record in it is
   well formed, and exactly one of them has the name and type; that one is the result.
   */
  lemma InspectExactly(iso: seq<Byte>, dir: IsoEntry, name: seq<Byte>, isDirectory: bool, e: IsoEntry)
    ensures Inspect(iso, dir, name, isDirectory) == Ok(e) <==>
              && Readable(iso, dir)
              && var records := Records(iso, FileBytes(iso, dir.extent), 0);
                 WellFormed(records) && OneNamed(records, name, isDirectory, e)
  {
    hide InspectFrom, Records, WellFormed, OneNamed, NoneNamed;
    if Readable(iso, dir) {
      InspectFromExactly(iso, FileBytes(iso, dir.extent), name, isDirectory, 0, None, e);
    }
  }

  // ----- They agree

  /** Once the inspector has a match, it can only keep it or refuse. */
  lemma {:induction false} MatchIsKept(iso: seq<Byte>, bytes: seq<Byte>, name: seq<Byte>, isDirectory: bool, offset: nat,
                                       e: IsoEntry)
    ensures var r := InspectFrom(iso, bytes, name, isDirectory, offset, Some(e)); r.Ok? ==> r.value == Some(e)
    decreases |bytes| - offset
  {
    hide InspectorRecord, RecordAt, NextSector;
    if offset < |bytes| {
      if bytes[offset] == 0 {
        MatchIsKept(iso, bytes, name, isDirectory, NextSector(offset), e);
      } else {
        MatchIsKept(iso, bytes, name, isDirectory, offset + bytes[offset] as int, e);
      }
    }
  }

  lemma {:induction false} WalksAgreeFrom(iso: seq<Byte>, bytes: seq<Byte>, name: seq<Byte>, isDirectory: bool, offset: nat)
    ensures var r := InspectFrom(iso, bytes, name, isDirectory, offset, None);
            r.Ok? && r.value.Some? ==> InjectFrom(iso, bytes, name, isDirectory, offset) == Ok(r.value.value.extent)
    ensures var r := InspectFrom(iso, bytes, name, isDirectory, offset, None);
            r == Ok(None) ==> InjectFrom(iso, bytes, name, isDirectory, offset).Err?
    decreases |bytes| - offset
  {
    hide InspectorRecord, InjectorRecord, RecordAt, NextSector;
    if offset < |bytes| {
      if bytes[offset] == 0 {
        WalksAgreeFrom(iso, bytes, name, isDirectory, NextSector(offset));
      } else {
        var next := offset + bytes[offset] as int;
        WalksAgreeFrom(iso, bytes, name, isDirectory, next);
        var at := RecordAt(bytes, offset);
        if at.Some? && InspectorRecord(iso, at.value.0).Ok? {
          RecordsAgree(iso, at.value.0);
          MatchIsKept(iso, bytes, name, isDirectory, next, InspectorRecord(iso, at.value.0).value);
        }
      }
    }
  }

  /**
   Whenever the inspector finds an entry, the injector finds the same extent, if and only if
   the directory is within the injector's 64 KiB limit.
   */
  lemma WalkersAgree(iso: seq<Byte>, dir: IsoEntry, name: seq<Byte>, isDirectory: bool)
    requires Inspect(iso, dir, name, isDirectory).Ok?
    ensures Inject(iso, dir.extent, name, isDirectory)
            == if dir.extent.length <= INJECTOR_LIMIT then Ok(Inspect(iso, dir, name, isDirectory).value.extent) else Err
  {
    hide InspectFrom, InjectFrom;
    WalksAgreeFrom(iso, FileBytes(iso, dir.extent), name, isDirectory, 0);
  }

  // ----- From the volume descriptor to a file

  const CD001: seq<Byte> := [0x43, 0x44, 0x30, 0x30, 0x31]

  function Descriptor(iso: seq<Byte>): (s: seq<Byte>)
    requires |iso| >= 17 * ISO_SECTOR
    ensures |s| == ISO_SECTOR
  {
    iso[16 * ISO_SECTOR..17 * ISO_SECTOR]
  }

  predicate DescriptorValid(d: seq<Byte>)
    requires |d| == ISO_SECTOR
  {
    d[0] == 1 && d[1..6] == CD001 && d[6] == 1
  }

  function InjectorRoot(iso: seq<Byte>): (r: Result<Extent>)
  {
    if |iso| < 17 * ISO_SECTOR || !DescriptorValid(Descriptor(iso)) then Err
    else InjectorRecord(iso, Descriptor(iso)[156..])
  }

  function InspectorRoot(iso: seq<Byte>): (r: Result<IsoEntry>)
  {
    if |iso| < 17 * ISO_SECTOR || !DescriptorValid(Descriptor(iso)) then Err
    else
      var d := Descriptor(iso);
      if Le32(d, 80) != Be32(d, 84) || Le32(d, 80) * ISO_SECTOR != |iso| then Err
      else InspectorRecord(iso, d[156..])
  }

  /** Directory below the root, then a file in it: how both programs reach an installer file. */
  function InspectorFile(iso: seq<Byte>, dir: seq<Byte>, file: seq<Byte>): (r: Result<(IsoEntry, IsoEntry, IsoEntry)>)
  {
    var root :- InspectorRoot(iso);
    var d :- Inspect(iso, root, dir, true);
    var f :- Inspect(iso, d, file, false);
    Ok((root, d, f))
  }

  function InjectorFile(iso: seq<Byte>, dir: seq<Byte>, file: seq<Byte>): (r: Result<Extent>)
  {
    var root :- InjectorRoot(iso);
    var d :- Inject(iso, root, dir, true);
    Inject(iso, d, file, false)
  }

  /** The injector strikes the file that the inspector verifies. */
  lemma SameFile(iso: seq<Byte>, dir: seq<Byte>, file: seq<Byte>)
    requires InspectorFile(iso, dir, file).Ok?
    requires var (root, d, f) := InspectorFile(iso, dir, file).value;
             root.extent.length <= INJECTOR_LIMIT && d.extent.length <= INJECTOR_LIMIT
    ensures InjectorFile(iso, dir, file) == Ok(InspectorFile(iso, dir, file).value.2.extent)
  {
    hide Inspect, Inject, InspectorRecord, InjectorRecord;
    var (root, d, f) := InspectorFile(iso, dir, file).value;
    RecordsAgree(iso, Descriptor(iso)[156..]);
    WalkersAgree(iso, root, dir, true);
    WalkersAgree(iso, d, file, false);
  }

  // ----- The inspector after the fault

  predicate Outside(p: nat, e: Extent) { p < e.offset || e.offset + e.length <= p }

  lemma {:induction false} SameInspectFrom(iso: seq<Byte>, iso': seq<Byte>, bytes: seq<Byte>, name: seq<Byte>,
                                           isDirectory: bool, offset: nat, found: Option<IsoEntry>)
    requires |iso| == |iso'|
    ensures InspectFrom(iso, bytes, name, isDirectory, offset, found)
            == InspectFrom(iso', bytes, name, isDirectory, offset, found)
    decreases |bytes| - offset
  {
    hide RecordAt, NextSector;
    if offset < |bytes| {
      if bytes[offset] == 0 {
        SameInspectFrom(iso, iso', bytes, name, isDirectory, NextSector(offset), found);
      } else {
        var next := offset + bytes[offset] as int;
        SameInspectFrom(iso, iso', bytes, name, isDirectory, next, found);
        var at := RecordAt(bytes, offset);
        if at.Some? {
          SameRecord(iso, iso', at.value.0);
          var e := InspectorRecord(iso, at.value.0);
          if e.Ok? {
            SameInspectFrom(iso, iso', bytes, name, isDirectory, next, Some(e.value));
          }
        }
      }
    }
  }

  lemma SameRecord(iso: seq<Byte>, iso': seq<Byte>, record: seq<Byte>)
    requires |iso| == |iso'|
    ensures InspectorRecord(iso, record) == InspectorRecord(iso', record)
  {
  }

  lemma SameInspect(iso: seq<Byte>, p: nat, dir: IsoEntry, name: seq<Byte>, isDirectory: bool)
    requires p < |iso| && Outside(p, dir.extent)
    ensures Inspect(Flipped(iso, p), dir, name, isDirectory) == Inspect(iso, dir, name, isDirectory)
  {
    hide InspectFrom;
    if dir.extent.offset + dir.extent.length <= |iso| {
      assert FileBytes(Flipped(iso, p), dir.extent) == FileBytes(iso, dir.extent);
      SameInspectFrom(iso, Flipped(iso, p), FileBytes(iso, dir.extent), name, isDirectory, 0, None);
    }
  }

  /**
   An installer fault meets the inspector: flipping byte `k` of a file found by the inspector,
   where that byte lies outside the descriptor and the two directories, leaves every lookup as
   it was and changes exactly that byte of the file.
   */
  lemma InstallerFaultSeen(iso: seq<Byte>, dir: seq<Byte>, file: seq<Byte>, k: nat)
    requires InspectorFile(iso, dir, file).Ok?
    requires var (root, d, f) := InspectorFile(iso, dir, file).value;
             && k < f.extent.length
             && f.extent.offset + f.extent.length <= |iso|
             && Outside(f.extent.offset + k, Extent(16 * ISO_SECTOR, ISO_SECTOR))
             && Outside(f.extent.offset + k, root.extent)
             && Outside(f.extent.offset + k, d.extent)
    ensures var f := InspectorFile(iso, dir, file).value.2;
            var iso' := Flipped(iso, f.extent.offset + k);
            && InspectorFile(iso', dir, file) == InspectorFile(iso, dir, file)
            && FileBytes(iso', f.extent) == Flipped(FileBytes(iso, f.extent), k)
  {
    hide Inspect, InspectorRecord;
    var (root, d, f) := InspectorFile(iso, dir, file).value;
    var p := f.extent.offset + k;
    var iso' := Flipped(iso, p);
    assert Descriptor(iso') == Descriptor(iso);
    SameRecord(iso, iso', Descriptor(iso)[156..]);
    SameInspect(iso, p, root, dir, true);
    SameInspect(iso, p, d, file, false);
  }
}
