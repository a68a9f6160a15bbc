/** The boot-control record and the checksum it carries. */
module BootControl {
  import opened Crc32
  import opened CrcBurst

  const RECORD_SIZE: nat := 4096
  const CRC_OFFSET: nat := 4092
  const SECTOR: nat := 512

  // ----- Little-endian words

  function Byte0(x: bv32): (b: bv8) { (x & 0xFF) as bv8 }
  function Byte1(x: bv32): (b: bv8) { ((x >> 8) & 0xFF) as bv8 }
  function Byte2(x: bv32): (b: bv8) { ((x >> 16) & 0xFF) as bv8 }
  function Byte3(x: bv32): (b: bv8) { ((x >> 24) & 0xFF) as bv8 }

  function Le32(x: bv32): (s: seq<bv8>)
    ensures |s| == 4
  {
    [Byte0(x), Byte1(x), Byte2(x), Byte3(x)]
  }

  // ----- The register run backwards over a window

  lemma StepFromOdd(r: bv32)
    requires r & 0x8000_0000 != 0
    ensures ((((r ^ 0xEDB8_8320) << 1) | 1) >> 1) ^ 0xEDB8_8320 == r
    ensures (((r ^ 0xEDB8_8320) << 1) | 1) & 1 == 1
  {
  }

  lemma StepFromEven(r: bv32)
    requires r & 0x8000_0000 == 0
    ensures (r << 1) >> 1 == r && (r << 1) & 1 == 0
  {
  }

  lemma StepUnstep(r: bv32)
    ensures Step(Unstep(r)) == r
  {
    if Top(r) {
      StepFromOdd(r);
      assert Unstep(r) == ((r ^ 0xEDB8_8320) << 1) | 1;
    } else {
      StepFromEven(r);
      assert Unstep(r) == r << 1;
    }
  }

  lemma {:induction false} StepsUnsteps(r: bv32, n: nat)
    ensures Steps(Unsteps(r, n), n) == r
    decreases n
  {
    hide Step, Unstep;
    if n > 0 {
      StepsUnsteps(Unstep(r), n - 1);
      StepUnstep(r);
    }
  }

  lemma AbsorbUnabsorb(r: bv32, b: bv8)
    ensures Absorb(Unabsorb(r, b), b) == r
  {
    hide Mix, Step, Unstep, Steps, Unsteps;
    MixTwice(Unsteps(r, 8), b);
    StepsUnsteps(r, 8);
  }

  /** The register before the bytes `w`, from the register after them. */
  function Rewind(r: bv32, w: seq<bv8>): (c: bv32)
    decreases |w|
  {
    if w == [] then r else Rewind(Unabsorb(r, w[|w| - 1]), w[..|w| - 1])
  }

  lemma {:induction false} RewindThenRun(r: bv32, w: seq<bv8>)
    ensures Register(Rewind(r, w), w) == r
    decreases |w|
  {
    hide Absorb, Unabsorb;
    if w != [] {
      RewindThenRun(Unabsorb(r, w[|w| - 1]), w[..|w| - 1]);
      AbsorbUnabsorb(r, w[|w| - 1]);
    }
  }

  lemma {:induction false} RunThenRewind(c: bv32, w: seq<bv8>)
    ensures Rewind(Register(c, w), w) == c
    decreases |w|
  {
    hide Absorb, Unabsorb;
    if w != [] {
      UnabsorbAbsorb(Register(c, w[..|w| - 1]), w[|w| - 1]);
      RunThenRewind(c, w[..|w| - 1]);
    }
  }

  lemma {:induction false} RewindDifference(r: bv32, d: bv32, w: seq<bv8>, w': seq<bv8>)
    requires |w| == |w'| <= 4 && Below(d, |w|)
    ensures Rewind(Xor(r, d), w') == Xor(Rewind(r, w), WindowDifference(d, w, w'))
    decreases |w|
  {
    hide Unabsorb, Carry, Xor, Below;
    if w != [] {
      var n := |w| - 1;
      CarryBelow(d, |w|, w[n], w'[n]);
      UnabsorbDifference(r, d, w[n], w'[n]);
      RewindDifference(Unabsorb(r, w[n]), Carry(d, w[n], w'[n]), w[..n], w'[..n]);
    }
  }

  // ----- A record carries its own checksum

  function WordDifference(x: bv32, y: bv32): (d: bv32)
  {
    Carry(Carry(Carry(Carry(0, Byte3(x), Byte3(y)), Byte2(x), Byte2(y)), Byte1(x), Byte1(y)), Byte0(x), Byte0(y))
  }

  lemma WordDifferenceIsXor(x: bv32, y: bv32)
    ensures WordDifference(x, y) == Xor(x, y)
  {
  }

  lemma WindowOfWords(x: bv32, y: bv32)
    ensures WindowDifference(0, Le32(x), Le32(y)) == WordDifference(x, y)
  {
    hide Carry, Byte0, Byte1, Byte2, Byte3;
    WindowOfFour(Le32(x), Le32(y));
  }

  function Complement(c: bv32): (r: bv32) { !c }

  lemma ComplementDifference(c: bv32, d: bv32)
    ensures Xor(c, Xor(Complement(c), Complement(d))) == d
  {
  }

  /** The register after any message followed by its checksum. */
  const RESIDUE: bv32 := Register(ALL_ONES, Le32(Complement(ALL_ONES)))

  lemma ResidueSame(c: bv32, d: bv32)
    ensures Register(c, Le32(Complement(c))) == Register(d, Le32(Complement(d)))
  {
    hide Register, Rewind, WindowDifference, WordDifference, Xor, Le32, Complement, Below;
    var w, w' := Le32(Complement(c)), Le32(Complement(d));
    var r := Register(c, w);
    ZeroBelow(4);
    XorZero(r, 0);
    RewindDifference(r, 0, w, w');
    RunThenRewind(c, w);
    WindowOfWords(Complement(c), Complement(d));
    WordDifferenceIsXor(Complement(c), Complement(d));
    ComplementDifference(c, d);
    RewindThenRun(r, w');
  }

  /** The checksum field holds the checksum of everything before it. */
  predicate CrcValid(rec: seq<bv8>)
  {
    |rec| == RECORD_SIZE && rec[CRC_OFFSET..] == Le32(Crc(rec[..CRC_OFFSET]))
  }

  lemma CrcIsComplement(data: seq<bv8>)
    ensures Crc(data) == Complement(Register(ALL_ONES, data))
  {
    hide Register;
  }

  /** A record is valid exactly when running the register over all of it leaves the residue. */
  lemma ValidIffResidue(rec: seq<bv8>)
    requires |rec| == RECORD_SIZE
    ensures CrcValid(rec) <==> Register(ALL_ONES, rec) == RESIDUE
  {
    hide Register, Crc, Complement, Le32;
    var data, tail := rec[..CRC_OFFSET], rec[CRC_OFFSET..];
    var c := Register(ALL_ONES, data);
    assert rec == data + tail;
    RegisterAppend(ALL_ONES, data, tail);
    CrcIsComplement(data);
    ResidueSame(c, ALL_ONES);
    if Register(ALL_ONES, rec) == RESIDUE {
      WindowInjective(c, tail, Le32(Complement(c)));
    }
  }

  /**
   Damage confined to four consecutive bytes of a valid record, wherever they are, the
   checksum field and its border included, is always detected.
   */
  lemma DamageDetected(rec: seq<bv8>, damaged: seq<bv8>, from: nat)
    requires CrcValid(rec) && |damaged| == RECORD_SIZE && damaged != rec
    requires forall i :: 0 <= i < RECORD_SIZE && rec[i] != damaged[i] ==> from <= i < from + 4
    ensures !CrcValid(damaged)
  {
    hide Register, Crc, Le32;
    ValidIffResidue(rec);
    ValidIffResidue(damaged);
    var lo := if from <= RECORD_SIZE then from else RECORD_SIZE;
    var hi := if from + 4 <= RECORD_SIZE then from + 4 else RECORD_SIZE;
    assert rec[..lo] == damaged[..lo] && rec[hi..] == damaged[hi..];
    assert rec == rec[..lo] + rec[lo..hi] + rec[hi..] && damaged == rec[..lo] + damaged[lo..hi] + rec[hi..];
    if Register(ALL_ONES, damaged) == RESIDUE {
      SameRegisterWindow(rec[..lo], rec[lo..hi], damaged[lo..hi], rec[hi..]);
      WindowInjective(Register(ALL_ONES, rec[..lo]), rec[lo..hi], damaged[lo..hi]);
    }
  }

  /** So is any burst of up to 32 bits, starting at any bit of the record. */
  lemma BitDamageDetected(rec: seq<bv8>, damaged: seq<bv8>, from: nat)
    requires CrcValid(rec) && |damaged| == RECORD_SIZE && damaged != rec && Burst(rec, damaged, from)
    ensures !CrcValid(damaged)
  {
    hide Register, Crc, Le32, Burst;
    ValidIffResidue(rec);
    ValidIffResidue(damaged);
    if Register(ALL_ONES, damaged) == RESIDUE {
      SameRegisterNoBurst(rec, damaged, from);
    }
  }
}
