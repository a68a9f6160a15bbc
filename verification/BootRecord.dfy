/** Building a boot-control record field by field, and resetting its two copies on a disk. */
module BootRecord {
  import opened Bytes
  import opened Crc32
  import opened BootControl

  const SEQUENCE_OFFSET: nat := 16
  const SLOT_A: nat := 64
  const SLOT_B: nat := 128

  // ----- Writing into a record

  /** `s` with `bytes` written over it at `offset`. */
  function Put(s: seq<bv8>, offset: nat, bytes: seq<bv8>): (r: seq<bv8>)
    requires offset + |bytes| <= |s|
    ensures |r| == |s|
  {
    s[..offset] + bytes + s[offset + |bytes|..]
  }

  lemma PutSlices(s: seq<bv8>, offset: nat, bytes: seq<bv8>)
    requires offset + |bytes| <= |s|
    ensures var r, end := Put(s, offset, bytes), offset + |bytes|;
            r[..offset] == s[..offset] && r[offset..end] == bytes && r[end..] == s[end..]
  {
  }

  lemma SliceOfPrefix(s: seq<bv8>, n: nat, i: nat, j: nat)
    requires i <= j <= n <= |s|
    ensures s[..n][i..j] == s[i..j]
  {
  }

  lemma SliceOfSuffix(s: seq<bv8>, n: nat, i: nat, j: nat)
    requires n <= i <= j <= |s|
    ensures s[n..][i - n..j - n] == s[i..j]
  {
  }

  method PutBytes(a: array<bv8>, offset: nat, bytes: seq<bv8>)
    requires offset + |bytes| <= a.Length
    modifies a
    ensures a[..] == Put(old(a[..]), offset, bytes)
  {
    for i := 0 to |bytes|
      invariant forall k :: 0 <= k < a.Length ==> a[k] == if offset <= k < offset + i then bytes[k - offset] else old(a[k])
    {
      a[offset + i] := bytes[i];
    }
  }

  /** Recomputes the checksum field. */
  function Seal(s: seq<bv8>): (r: seq<bv8>)
    requires |s| == RECORD_SIZE
    ensures |r| == RECORD_SIZE
  {
    Put(s, CRC_OFFSET, Le32(Crc(s[..CRC_OFFSET])))
  }

  lemma SealValid(s: seq<bv8>)
    requires |s| == RECORD_SIZE
    ensures CrcValid(Seal(s)) && Seal(s)[..CRC_OFFSET] == s[..CRC_OFFSET]
  {
    hide Crc, Le32, Put;
    PutSlices(s, CRC_OFFSET, Le32(Crc(s[..CRC_OFFSET])));
    var r := Seal(s);
    assert r[CRC_OFFSET..] == r[CRC_OFFSET..CRC_OFFSET + 4];
  }

  method SealInPlace(a: array<bv8>)
    requires a.Length == RECORD_SIZE
    modifies a
    ensures a[..] == Seal(old(a[..]))
  {
    hide Crc, Le32;
    var crc := ComputeCrc(a[..CRC_OFFSET]);
    assert a[..CRC_OFFSET] == a[..][..CRC_OFFSET];
    PutBytes(a, CRC_OFFSET, Le32(crc));
  }

  // ----- The layout

  function Le64(x: bv64): (s: seq<bv8>)
    ensures |s| == 8
  {
    [(x & 0xFF) as bv8, ((x >> 8) & 0xFF) as bv8, ((x >> 16) & 0xFF) as bv8, ((x >> 24) & 0xFF) as bv8,
     ((x >> 32) & 0xFF) as bv8, ((x >> 40) & 0xFF) as bv8, ((x >> 48) & 0xFF) as bv8, ((x >> 56) & 0xFF) as bv8]
  }

  type Id = s: seq<bv8> | |s| == 16 witness seq(16, _ => 0)

  datatype Slot = Slot(priority: bv8, tries: bv8, successful: bool, version: bv64, imageId: Id)

  datatype Fields = Fields(sequence: bv64, floor: bv64, recoveryVersion: bv64, recoveryId: Id, flags: bv32, a: Slot, b: Slot)

  /** A field: where it is and what it holds. */
  datatype Piece = Piece(offset: nat, bytes: seq<bv8>) {
    function End(): (n: nat) { offset + |bytes| }
  }

  const MAGIC: seq<bv8> := [0x45, 0x4E, 0x45, 0x52, 0x42, 0x43, 0x30, 0x31]

  function Zeros(n: nat): (s: seq<bv8>)
    ensures |s| == n
  {
    seq(n, _ => 0)
  }

  function SlotPieces(offset: nat, s: Slot): (ps: seq<Piece>)
  {
    [Piece(offset, [s.priority, s.tries, if s.successful then 1 else 0]),
     Piece(offset + 8, Le64(s.version)),
     Piece(offset + 16, s.imageId),
     Piece(offset + 32, Zeros(4)),
     Piece(offset + 40, Zeros(8))]
  }

  function HeaderPieces(f: Fields): (ps: seq<Piece>)
  {
    [Piece(0, MAGIC),
     Piece(8, [1, 0]),
     Piece(10, [192, 0]),
     Piece(12, [0, 0x10, 0, 0]),
     Piece(SEQUENCE_OFFSET, Le64(f.sequence)),
     Piece(24, Le64(f.floor)),
     Piece(32, Le64(f.recoveryVersion)),
     Piece(40, f.recoveryId),
     Piece(56, Le32(f.flags))]
  }

  function Pieces(f: Fields): (ps: seq<Piece>)
  {
    HeaderPieces(f) + SlotPieces(SLOT_A, f.a) + SlotPieces(SLOT_B, f.b)
  }

  /** The pieces follow each other without overlap, all before the checksum. */
  ghost predicate Disjoint(ps: seq<Piece>)
  {
    && (forall i :: 0 <= i < |ps| ==> ps[i].End() <= CRC_OFFSET)
    && (forall i, j :: 0 <= i < j < |ps| ==> ps[i].End() <= ps[j].offset)
  }

  lemma HeaderDisjoint(f: Fields)
    ensures var h := HeaderPieces(f);
            (forall i, j :: 0 <= i < j < |h| ==> h[i].End() <= h[j].offset) && forall i :: 0 <= i < |h| ==> h[i].End() <= SLOT_A
  {
    hide Le64, Le32;
  }

  lemma SlotDisjoint(offset: nat, s: Slot)
    ensures var h := SlotPieces(offset, s);
            && (forall i, j :: 0 <= i < j < |h| ==> h[i].End() <= h[j].offset)
            && forall i :: 0 <= i < |h| ==> offset <= h[i].offset && h[i].End() <= offset + 64
  {
    hide Le64;
  }

  lemma PiecesDisjoint(f: Fields)
    ensures Disjoint(Pieces(f))
  {
    hide HeaderPieces, SlotPieces;
    HeaderDisjoint(f);
    SlotDisjoint(SLOT_A, f.a);
    SlotDisjoint(SLOT_B, f.b);
  }

  function PutAll(s: seq<bv8>, ps: seq<Piece>): (r: seq<bv8>)
    requires forall i :: 0 <= i < |ps| ==> ps[i].End() <= |s|
    ensures |r| == |s|
  {
    if ps == [] then s
    else
      var last := ps[|ps| - 1];
      assert last.End() <= |s|;
      Put(PutAll(s, ps[..|ps| - 1]), last.offset, last.bytes)
  }

  ghost predicate InPiece(ps: seq<Piece>, k: nat)
  {
    exists i :: 0 <= i < |ps| && ps[i].offset <= k < ps[i].End()
  }

  lemma PutReads(s: seq<bv8>, p: Piece)
    requires p.End() <= |s|
    ensures Put(s, p.offset, p.bytes)[p.offset..p.End()] == p.bytes
    ensures forall k :: 0 <= k < |s| && !(p.offset <= k < p.End()) ==> Put(s, p.offset, p.bytes)[k] == s[k]
  {
  }

  /** The last piece leaves an earlier one alone. */
  lemma EarlierPiece(before: seq<bv8>, p: Piece, last: Piece)
    requires p.End() <= last.offset && last.End() <= |before|
    ensures Put(before, last.offset, last.bytes)[p.offset..p.End()] == before[p.offset..p.End()]
  {
    hide Put;
    PutReads(before, last);
  }

  lemma OutsideAll(init: seq<Piece>, last: Piece, k: nat)
    ensures InPiece(init + [last], k) <==> InPiece(init, k) || last.offset <= k < last.End()
  {
    var ps := init + [last];
    assert ps[|init|] == last && forall i :: 0 <= i < |init| ==> ps[i] == init[i];
  }

  lemma DisjointParts(init: seq<Piece>, last: Piece)
    requires Disjoint(init + [last])
    ensures Disjoint(init) && last.End() <= CRC_OFFSET && forall i :: 0 <= i < |init| ==> init[i].End() <= last.offset
  {
    var ps := init + [last];
    assert ps[|init|] == last && forall i :: 0 <= i < |init| ==> ps[i] == init[i];
  }

  /** Disjoint fields read back what was written, and nothing else changes. */
  lemma {:induction false} PutAllReads(s: seq<bv8>, ps: seq<Piece>)
    requires Disjoint(ps) && CRC_OFFSET <= |s|
    ensures forall i :: 0 <= i < |ps| ==> PutAll(s, ps)[ps[i].offset..ps[i].End()] == ps[i].bytes
    ensures forall k: nat :: k < |s| && !InPiece(ps, k) ==> PutAll(s, ps)[k] == s[k]
    decreases |ps|
  {
    hide Put, InPiece;
    if ps != [] {
      var init, last := ps[..|ps| - 1], ps[|ps| - 1];
      assert ps == init + [last];
      DisjointParts(init, last);
      hide Disjoint;
      var before, r := PutAll(s, init), PutAll(s, ps);
      PutAllReads(s, init);
      PutReads(before, last);
      forall i | 0 <= i < |ps| ensures r[ps[i].offset..ps[i].End()] == ps[i].bytes {
        if i < |init| {
          EarlierPiece(before, init[i], last);
        }
      }
      forall k: nat | k < |s| && !InPiece(ps, k) ensures r[k] == s[k] {
        OutsideAll(init, last, k);
      }
    }
  }

  function MakeRecord(f: Fields): (r: seq<bv8>)
    ensures |r| == RECORD_SIZE
  {
    PiecesDisjoint(f);
    Seal(PutAll(Zeros(RECORD_SIZE), Pieces(f)))
  }

  lemma {:induction false} PutAllAppend(s: seq<bv8>, ps: seq<Piece>, qs: seq<Piece>)
    requires forall i :: 0 <= i < |ps| ==> ps[i].End() <= |s|
    requires forall i :: 0 <= i < |qs| ==> qs[i].End() <= |s|
    ensures forall i :: 0 <= i < |ps + qs| ==> (ps + qs)[i].End() <= |s|
    ensures PutAll(PutAll(s, ps), qs) == PutAll(s, ps + qs)
    decreases |qs|
  {
    hide Put;
    if qs == [] {
      assert ps + qs == ps;
    } else {
      PutAllAppend(s, ps, qs[..|qs| - 1]);
      assert (ps + qs)[..|ps + qs| - 1] == ps + qs[..|qs| - 1];
    }
  }

  /** Writes a group of fields. */
  method PutPieces(a: array<bv8>, ps: seq<Piece>)
    requires forall i :: 0 <= i < |ps| ==> ps[i].End() <= a.Length
    modifies a
    ensures a[..] == PutAll(old(a[..]), ps)
  {
    hide Put;
    for i := 0 to |ps|
      invariant a[..] == PutAll(old(a[..]), ps[..i])
    {
      PutBytes(a, ps[i].offset, ps[i].bytes);
      assert ps[..i + 1][..i] == ps[..i];
    }
    assert ps[..|ps|] == ps;
  }

  /** Builds a record: header, both slots, checksum. */
  method BuildRecord(f: Fields) returns (rec: seq<bv8>)
    ensures rec == MakeRecord(f) && LaidOut(rec, f)
  {
    hide Put, Seal, HeaderPieces, SlotPieces, LaidOut, PutAll;
    var a := new bv8[RECORD_SIZE](_ => 0);
    assert a[..] == Zeros(RECORD_SIZE);
    HeaderDisjoint(f);
    SlotDisjoint(SLOT_A, f.a);
    SlotDisjoint(SLOT_B, f.b);
    PutPieces(a, HeaderPieces(f));
    PutPieces(a, SlotPieces(SLOT_A, f.a));
    PutPieces(a, SlotPieces(SLOT_B, f.b));
    PutAllAppend(Zeros(RECORD_SIZE), HeaderPieces(f), SlotPieces(SLOT_A, f.a));
    PutAllAppend(Zeros(RECORD_SIZE), HeaderPieces(f) + SlotPieces(SLOT_A, f.a), SlotPieces(SLOT_B, f.b));
    SealInPlace(a);
    RecordLaidOut(f);
    rec := a[..];
  }

  /** The record holds every field at its place, zeros elsewhere, and a valid checksum. */
  ghost predicate LaidOut(rec: seq<bv8>, f: Fields)
  {
    && |rec| == RECORD_SIZE
    && CrcValid(rec)
    && (forall i :: 0 <= i < |Pieces(f)| ==>
          Pieces(f)[i].End() <= |rec| && rec[Pieces(f)[i].offset..Pieces(f)[i].End()] == Pieces(f)[i].bytes)
    && (forall k: nat :: k < CRC_OFFSET && k < |rec| && !InPiece(Pieces(f), k) ==> rec[k] == 0)
  }

  lemma RecordLaidOut(f: Fields)
    ensures LaidOut(MakeRecord(f), f)
  {
    PiecesDisjoint(f);
    hide Pieces, PutAll, Seal, CrcValid;
    var ps := Pieces(f);
    var s := PutAll(Zeros(RECORD_SIZE), ps);
    PutAllReads(Zeros(RECORD_SIZE), ps);
    SealValid(s);
    var rec := MakeRecord(f);
    forall i | 0 <= i < |ps| ensures rec[ps[i].offset..ps[i].End()] == ps[i].bytes {
      SliceOfPrefix(rec, CRC_OFFSET, ps[i].offset, ps[i].End());
      SliceOfPrefix(s, CRC_OFFSET, ps[i].offset, ps[i].End());
    }
    forall k: nat | k < CRC_OFFSET && !InPiece(ps, k) ensures rec[k] == 0 {
      assert rec[k] == rec[..CRC_OFFSET][k] && s[k] == s[..CRC_OFFSET][k];
    }
  }

  // ----- Reset

  /** The record with sequence number zero and a fresh checksum. */
  function ResetRecord(first: seq<bv8>): (r: seq<bv8>)
    requires |first| == RECORD_SIZE
    ensures |r| == RECORD_SIZE
  {
    Seal(Put(first, SEQUENCE_OFFSET, Zeros(8)))
  }

  lemma ResetRecordExact(first: seq<bv8>)
    requires |first| == RECORD_SIZE
    ensures var r := ResetRecord(first);
            && CrcValid(r)
            && r[SEQUENCE_OFFSET..SEQUENCE_OFFSET + 8] == Zeros(8)
            && r[..SEQUENCE_OFFSET] == first[..SEQUENCE_OFFSET]
            && r[SEQUENCE_OFFSET + 8..CRC_OFFSET] == first[SEQUENCE_OFFSET + 8..CRC_OFFSET]
  {
    hide Seal, CrcValid, Put;
    var z, end := Put(first, SEQUENCE_OFFSET, Zeros(8)), SEQUENCE_OFFSET + 8;
    var r := ResetRecord(first);
    PutSlices(first, SEQUENCE_OFFSET, Zeros(8));
    SealValid(z);
    SliceOfPrefix(r, CRC_OFFSET, SEQUENCE_OFFSET, end);
    SliceOfPrefix(z, CRC_OFFSET, SEQUENCE_OFFSET, end);
    SliceOfPrefix(r, CRC_OFFSET, 0, SEQUENCE_OFFSET);
    SliceOfPrefix(z, CRC_OFFSET, 0, SEQUENCE_OFFSET);
    SliceOfPrefix(r, CRC_OFFSET, end, CRC_OFFSET);
    SliceOfPrefix(z, CRC_OFFSET, end, CRC_OFFSET);
    SliceOfSuffix(z, end, end, CRC_OFFSET);
    SliceOfSuffix(first, end, end, CRC_OFFSET);
  }

  /** A valid record whose sequence number is zero is left as it is. */
  lemma ResetFixes(r: seq<bv8>)
    requires CrcValid(r) && r[SEQUENCE_OFFSET..SEQUENCE_OFFSET + 8] == Zeros(8)
    ensures ResetRecord(r) == r
  {
    hide Crc, Le32;
    assert Put(r, SEQUENCE_OFFSET, Zeros(8)) == r;
    assert Seal(r) == r[..CRC_OFFSET] + r[CRC_OFFSET..];
  }

  /** A write that starts inside the file or at its end. */
  function Overwrite(file: seq<bv8>, offset: nat, data: seq<bv8>): (r: seq<bv8>)
    requires offset <= |file|
    ensures |r| == if offset + |data| <= |file| then |file| else offset + |data|
  {
    file[..offset] + data + if offset + |data| <= |file| then file[offset + |data|..] else []
  }

  /** The reset of both copies; a file too short to hold the first copy is an error. */
  function ResetCopies(file: seq<bv8>, firstLba: nat): (r: Result<seq<bv8>>)
  {
    var start := firstLba * SECTOR;
    if start + RECORD_SIZE > |file| then Err
    else
      var rec := ResetRecord(file[start..start + RECORD_SIZE]);
      Ok(Overwrite(Overwrite(file, start, rec), start + RECORD_SIZE, rec))
  }

  /** The disk image, patched in place. */
  class Image {
    var bytes: seq<bv8>

    constructor (initial: seq<bv8>)
      ensures bytes == initial
    {
      bytes := initial;
    }

    method ResetBootControl(firstLba: nat) returns (ok: bool)
      modifies this
      ensures ok == ResetCopies(old(bytes), firstLba).Ok?
      ensures bytes == if ok then ResetCopies(old(bytes), firstLba).value else old(bytes)
    {
      hide Put, Seal, Overwrite;
      var start := firstLba * SECTOR;
      if start + RECORD_SIZE > |bytes| {
        return false;
      }
      var source := bytes[start..start + RECORD_SIZE];
      var first := new bv8[RECORD_SIZE](i requires 0 <= i < RECORD_SIZE => source[i]);
      assert first[..] == source;
      PutBytes(first, SEQUENCE_OFFSET, Zeros(8));
      SealInPlace(first);
      var rec := first[..];
      bytes := Overwrite(bytes, start, rec);
      bytes := Overwrite(bytes, start + RECORD_SIZE, rec);
      return true;
    }
  }

  /**
   After a reset both copies are the same valid record with sequence number zero, all other
   fields are those of the first copy, and the rest of the disk is untouched.
   */
  lemma ResetExact(file: seq<bv8>, firstLba: nat)
    requires ResetCopies(file, firstLba).Ok?
    ensures var start, out := firstLba * SECTOR, ResetCopies(file, firstLba).value;
            var first := file[start..start + RECORD_SIZE];
            && |out| == (if start + 2 * RECORD_SIZE <= |file| then |file| else start + 2 * RECORD_SIZE)
            && out[start..start + RECORD_SIZE] == out[start + RECORD_SIZE..start + 2 * RECORD_SIZE] == ResetRecord(first)
            && out[..start] == file[..start]
            && out[start + 2 * RECORD_SIZE..] == if start + 2 * RECORD_SIZE <= |file| then file[start + 2 * RECORD_SIZE..] else []
  {
    hide ResetRecord;
  }

  /** Resetting twice is resetting once. */
  lemma ResetIdempotent(file: seq<bv8>, firstLba: nat)
    requires ResetCopies(file, firstLba).Ok?
    ensures ResetCopies(ResetCopies(file, firstLba).value, firstLba) == ResetCopies(file, firstLba)
  {
    hide ResetRecord, CrcValid, Overwrite;
    var start, out := firstLba * SECTOR, ResetCopies(file, firstLba).value;
    var first := file[start..start + RECORD_SIZE];
    ResetExact(file, firstLba);
    ResetRecordExact(first);
    var rec := ResetRecord(first);
    ResetFixes(rec);
    OverwriteSame(out, start, rec);
    OverwriteSame(out, start + RECORD_SIZE, rec);
  }

  lemma OverwriteSame(file: seq<bv8>, offset: nat, data: seq<bv8>)
    requires offset + |data| <= |file| && file[offset..offset + |data|] == data
    ensures Overwrite(file, offset, data) == file
  {
  }

  lemma ZeroSequence()
    ensures Le64(0) == Zeros(8)
  {
  }

  /** The fields of a reset record, one piece at a time. */
  lemma ResetPiece(rec: seq<bv8>, f: Fields, i: nat)
    requires LaidOut(rec, f) && i < |Pieces(f)|
    ensures var g, r := f.(sequence := 0), ResetRecord(rec);
            |Pieces(g)| == |Pieces(f)| && Pieces(g)[i].offset == Pieces(f)[i].offset && Pieces(g)[i].End() == Pieces(f)[i].End()
            && Pieces(g)[i].End() <= CRC_OFFSET && r[Pieces(g)[i].offset..Pieces(g)[i].End()] == Pieces(g)[i].bytes
  {
    hide ResetRecord, CrcValid, Le64, Le32, Disjoint;
    PiecesDisjoint(f);
    DisjointFromSequence(f, i);
    ResetRecordExact(rec);
    ZeroSequence();
    var r, p, end := ResetRecord(rec), Pieces(f)[i], SEQUENCE_OFFSET + 8;
    if i < 4 {
      SliceOfPrefix(r, SEQUENCE_OFFSET, p.offset, p.End());
      SliceOfPrefix(rec, SEQUENCE_OFFSET, p.offset, p.End());
    } else if i > 4 {
      MiddleSlices(r, rec, end, p.offset, p.End());
    }
  }

  lemma MiddleSlices(r: seq<bv8>, rec: seq<bv8>, from: nat, i: nat, j: nat)
    requires |r| == |rec| == RECORD_SIZE && from <= i <= j <= CRC_OFFSET && r[from..CRC_OFFSET] == rec[from..CRC_OFFSET]
    ensures r[i..j] == rec[i..j]
  {
    forall k | i <= k < j ensures r[k] == rec[k] {
      assert r[from..CRC_OFFSET][k - from] == rec[from..CRC_OFFSET][k - from];
    }
  }

  /** The sequence number is piece 4; the pieces before and after it keep away from it. */
  lemma DisjointFromSequence(f: Fields, i: nat)
    requires i < |Pieces(f)|
    ensures Pieces(f)[4] == Piece(SEQUENCE_OFFSET, Le64(f.sequence))
    ensures i < 4 ==> Pieces(f)[i].End() <= SEQUENCE_OFFSET
    ensures i > 4 ==> SEQUENCE_OFFSET + 8 <= Pieces(f)[i].offset
    ensures Pieces(f)[i].End() <= CRC_OFFSET
  {
    hide Le64, Le32, SlotPieces;
    PiecesDisjoint(f);
  }

  lemma SamePlaces(f: Fields, g: Fields, k: nat)
    requires |Pieces(f)| == |Pieces(g)|
    requires forall i :: 0 <= i < |Pieces(f)| ==>
               Pieces(f)[i].offset == Pieces(g)[i].offset && Pieces(f)[i].End() == Pieces(g)[i].End()
    requires InPiece(Pieces(f), k)
    ensures InPiece(Pieces(g), k)
  {
    hide Pieces;
    var i :| 0 <= i < |Pieces(f)| && Pieces(f)[i].offset <= k < Pieces(f)[i].End();
    assert Pieces(g)[i].offset <= k < Pieces(g)[i].End();
  }

  /** A reset changes the sequence number to zero and no other field. */
  lemma ResetKeepsLayout(rec: seq<bv8>, f: Fields)
    requires LaidOut(rec, f)
    ensures LaidOut(ResetRecord(rec), f.(sequence := 0))
  {
    hide Pieces, ResetRecord, CrcValid, InPiece;
    var g, r := f.(sequence := 0), ResetRecord(rec);
    ResetRecordExact(rec);
    PiecesCount(f);
    PiecesCount(g);
    forall i | 0 <= i < |Pieces(f)|
      ensures && Pieces(g)[i].offset == Pieces(f)[i].offset && Pieces(g)[i].End() == Pieces(f)[i].End() <= CRC_OFFSET
              && r[Pieces(g)[i].offset..Pieces(g)[i].End()] == Pieces(g)[i].bytes
    {
      ResetPiece(rec, f, i);
    }
    forall k: nat | k < CRC_OFFSET && !InPiece(Pieces(g), k) ensures r[k] == 0 {
      if InPiece(Pieces(f), k) { SamePlaces(f, g, k); }
      SequenceInPiece(g, k);
      assert k < SEQUENCE_OFFSET ==> r[..SEQUENCE_OFFSET][k] == rec[..SEQUENCE_OFFSET][k];
      if k >= SEQUENCE_OFFSET + 8 { MiddleSlices(r, rec, SEQUENCE_OFFSET + 8, k, k + 1); assert r[k..k + 1][0] == rec[k..k + 1][0]; }
    }
  }

  lemma PiecesCount(f: Fields)
    ensures |Pieces(f)| == 19
  {
    hide Le64, Le32;
  }

  lemma SequenceInPiece(f: Fields, k: nat)
    ensures SEQUENCE_OFFSET <= k < SEQUENCE_OFFSET + 8 ==> InPiece(Pieces(f), k)
  {
    hide Le64, Le32, SlotPieces;
    assert Pieces(f)[4] == Piece(SEQUENCE_OFFSET, Le64(f.sequence));
  }

  /** A built record, reset on a disk: both copies carry the same fields with sequence number zero. */
  lemma ResetOfBuilt(f: Fields)
    ensures LaidOut(ResetRecord(MakeRecord(f)), f.(sequence := 0))
  {
    hide LaidOut, MakeRecord, ResetRecord;
    RecordLaidOut(f);
    ResetKeepsLayout(MakeRecord(f), f);
  }
}
