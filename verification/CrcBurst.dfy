/**
 Bursts: messages whose differing bits all lie within 32 consecutive bits, wherever they
 start, never have the same CRC-32. Bits are counted from the low end of each byte, as the
 register takes them in.
 */
module CrcBurst {
  import opened Crc32

  // ----- Differences travel downwards while their low bit is clear

  function Down(d: bv32): (r: bv32) { d >> 1 }
  predicate Odd(d: bv32) { d & 1 == 1 }

  function Downs(d: bv32, n: nat): (r: bv32)
    decreases n
  {
    if n == 0 then d else Downs(Down(d), n - 1)
  }

  /** Bit `j` of a word, counted from the low end. */
  predicate BitAt(d: bv32, j: nat)
    decreases j
  {
    if j == 0 then Odd(d) else BitAt(Down(d), j - 1)
  }

  /** The lowest `n` bits are clear. */
  predicate Clear(d: bv32, n: nat)
    decreases n
  {
    n == 0 || (!Odd(d) && Clear(Down(d), n - 1))
  }

  lemma OddOfDifference(a: bv32, d: bv32)
    ensures Odd(Xor(a, d)) <==> Odd(a) != Odd(d)
    ensures Down(Xor(a, d)) == Xor(Down(a), Down(d))
  {
  }

  lemma EvenStep(a: bv32)
    ensures Step(a) == if Odd(a) then WithPolynomial(Down(a)) else Down(a)
  {
  }

  function WithPolynomial(a: bv32): (r: bv32) { a ^ 0xEDB8_8320 }

  lemma PolynomialOfDifference(a: bv32, d: bv32)
    ensures WithPolynomial(Xor(a, d)) == Xor(WithPolynomial(a), d)
  {
  }

  lemma StepDifference(a: bv32, d: bv32)
    requires !Odd(d)
    ensures Step(Xor(a, d)) == Xor(Step(a), Down(d))
  {
    hide Step, Xor, Down, Odd, WithPolynomial;
    OddOfDifference(a, d);
    EvenStep(a);
    EvenStep(Xor(a, d));
    PolynomialOfDifference(Down(a), Down(d));
  }

  lemma {:induction false} StepsAppend(c: bv32, m: nat, n: nat)
    ensures Steps(Steps(c, m), n) == Steps(c, m + n)
  {
    hide Step;
    if n > 0 { StepsAppend(c, m, n - 1); }
  }

  lemma {:induction false} StepsDifference(a: bv32, d: bv32, n: nat)
    requires Clear(d, n)
    ensures Steps(Xor(a, d), n) == Xor(Steps(a, n), Downs(d, n))
    decreases n
  {
    hide Step, Xor, Down, Odd;
    if n > 0 {
      StepDifference(a, d);
      StepsDifference(Step(a), Down(d), n - 1);
      OneStep(a);
      OneStep(Xor(a, d));
      StepsAppend(a, 1, n - 1);
      StepsAppend(Xor(a, d), 1, n - 1);
    }
  }

  lemma OneStep(c: bv32)
    ensures Steps(c, 1) == Step(c)
  {
    hide Step;
    assert Steps(c, 0) == c;
  }

  // ----- Up and down

  lemma {:induction false} UpsLast(d: bv32, n: nat)
    ensures Ups(d, n + 1) == Up(Ups(d, n))
    decreases n
  {
    hide Up;
    if n > 0 { UpsLast(Up(d), n - 1); }
  }

  lemma {:induction false} DownsLast(d: bv32, n: nat)
    ensures Downs(d, n + 1) == Down(Downs(d, n))
    decreases n
  {
    hide Down;
    if n > 0 { DownsLast(Down(d), n - 1); }
  }

  lemma {:induction false} DownsAppend(d: bv32, m: nat, n: nat)
    ensures Downs(Downs(d, m), n) == Downs(d, m + n)
    decreases m
  {
    hide Down;
    if m > 0 { DownsAppend(Down(d), m - 1, n); }
  }

  lemma DownUp(d: bv32)
    ensures !Top(d) ==> Down(Up(d)) == d
    ensures !Odd(d) ==> Up(Down(d)) == d
    ensures Up(0) == 0
  {
  }

  lemma {:induction false} DownsUps(d: bv32, n: nat)
    requires StaysBelow(d, n)
    ensures Downs(Ups(d, n), n) == d
    decreases n
  {
    hide Up, Down, Top;
    if n > 0 {
      DownsUps(Up(d), n - 1);
      DownsLast(Ups(d, n), n - 1);
      DownUp(d);
    }
  }

  lemma {:induction false} UpsDowns(d: bv32, n: nat)
    requires Clear(d, n)
    ensures Ups(Downs(d, n), n) == d
    decreases n
  {
    hide Up, Down, Odd;
    if n > 0 {
      UpsDowns(Down(d), n - 1);
      UpsLast(Downs(d, n), n - 1);
      DownUp(d);
    }
  }

  lemma {:induction false} UpsZero(n: nat)
    ensures Ups(0, n) == 0
  {
    hide Up;
    if n > 0 {
      DownUp(0);
      UpsZero(n - 1);
    }
  }

  function Right7(d: bv32): (r: bv32) { d >> 7 }
  function Right8(d: bv32): (r: bv32) { d >> 8 }
  function Right24(d: bv32): (r: bv32) { d >> 24 }

  lemma SevenDowns(d: bv32)
    ensures Downs(d, 7) == Right7(d)
  {
    var d1 := Down(d);
    var d2 := Down(d1);
    var d3 := Down(d2);
    var d4 := Down(d3);
    var d5 := Down(d4);
    var d6 := Down(d5);
    assert Downs(Down(d6), 0) == Down(d6) && Downs(d6, 1) == Down(d6) && Downs(d5, 2) == Down(d6) && Downs(d4, 3) == Down(d6);
    assert Downs(d3, 4) == Down(d6) && Downs(d2, 5) == Down(d6) && Downs(d1, 6) == Down(d6);
  }

  lemma EightDowns(d: bv32)
    ensures Downs(d, 8) == Right8(d)
  {
    hide Downs, Right7;
    SevenDowns(d);
    DownsLast(d, 7);
    RightOnce(d);
  }

  lemma RightOnce(d: bv32)
    ensures Down(Right7(d)) == Right8(d)
    ensures Right8(Right8(Right8(d))) == Right24(d)
    ensures Bits8(d) ==> Right8(d) == 0
    ensures Top(d) <==> Odd(Right7(Right24(d)))
  {
  }

  lemma DownsToHighByte(d: bv32)
    ensures Downs(d, 24) == Right24(d)
  {
    hide Downs, Right8, Right24;
    EightDowns(d);
    EightDowns(Right8(d));
    EightDowns(Right8(Right8(d)));
    DownsAppend(d, 8, 8);
    DownsAppend(d, 16, 8);
    RightOnce(d);
  }

  // ----- Bits

  lemma {:induction false} BitAfterDowns(d: bv32, m: nat, j: nat)
    ensures BitAt(Downs(d, m), j) == BitAt(d, m + j)
    decreases m
  {
    hide Down, Odd;
    if m > 0 { BitAfterDowns(Down(d), m - 1, j); }
  }

  lemma {:induction false} BitOfDifference(a: bv32, d: bv32, j: nat)
    ensures BitAt(Xor(a, d), j) <==> BitAt(a, j) != BitAt(d, j)
    decreases j
  {
    hide Xor, Down, Odd;
    OddOfDifference(a, d);
    if j > 0 { BitOfDifference(Down(a), Down(d), j - 1); }
  }

  lemma {:induction false} ClearBits(d: bv32, n: nat)
    requires forall j: nat :: j < n ==> !BitAt(d, j)
    ensures Clear(d, n)
    decreases n
  {
    hide Down, Odd;
    if n > 0 {
      assert !BitAt(d, 0);
      forall j: nat | j < n - 1
        ensures !BitAt(Down(d), j)
      {
        assert !BitAt(d, j + 1);
      }
      ClearBits(Down(d), n - 1);
    }
  }

  lemma TopIsBit31(d: bv32)
    ensures Top(d) <==> BitAt(d, 31)
  {
    hide Top, Odd, Downs, Right7, Right24;
    BitAfterDowns(d, 24, 7);
    DownsToHighByte(d);
    BitAfterDowns(Right24(d), 7, 0);
    SevenDowns(Right24(d));
    RightOnce(d);
  }

  /** A word whose top `n` bits are clear can be moved up `n` times. */
  lemma {:induction false} HighBitsClear(d: bv32, n: nat)
    requires n <= 32 && forall j: nat :: 32 - n <= j < 32 ==> !BitAt(d, j)
    ensures StaysBelow(d, n)
    decreases n
  {
    hide Up, Down, Top, Odd;
    if n > 0 {
      TopIsBit31(d);
      DownUp(d);
      forall j: nat | 32 - (n - 1) <= j < 32
        ensures !BitAt(Up(d), j)
      {
        assert !BitAt(d, j - 1);
      }
      HighBitsClear(Up(d), n - 1);
    }
  }

  // ----- Bytes

  function ByteXor(b: bv8, b': bv8): (d: bv32) { (b as bv32) ^ (b' as bv32) }

  lemma ByteXorShape(c: bv32, b: bv8, b': bv8)
    ensures Mix(c, b') == Xor(Mix(c, b), ByteXor(b, b')) && Bits8(ByteXor(b, b'))
    ensures ByteXor(b, b') == Xor(b as bv32, b' as bv32)
    ensures ByteXor(b, b') == 0 <==> b == b'
  {
  }

  predicate ByteBit(b: bv8, j: nat) { BitAt(b as bv32, j) }

  lemma ByteVanishes(d: bv32)
    requires Bits8(d)
    ensures Downs(d, 8) == 0
  {
    hide Downs, Bits8;
    EightDowns(d);
    RightOnce(d);
  }

  /** A difference within a byte whose bits are all clear is none. */
  lemma SameByte(b: bv8, b': bv8)
    requires forall j: nat :: j < 8 ==> ByteBit(b, j) == ByteBit(b', j)
    ensures b == b'
  {
    hide ByteXor, Downs, Ups, BitAt, Clear, Bits8;
    var d := ByteXor(b, b');
    ByteXorShape(0, b, b');
    forall j: nat | j < 8
      ensures !BitAt(d, j)
    {
      assert ByteBit(b, j) == ByteBit(b', j);
      BitOfDifference(b as bv32, b' as bv32, j);
    }
    ClearBits(d, 8);
    UpsDowns(d, 8);
    ByteVanishes(d);
    UpsZero(8);
  }

  // ----- A window of five bytes

  lemma XorCancel(a: bv32, d: bv32, e: bv32)
    requires Xor(a, d) == Xor(a, e)
    ensures d == e
  {
  }

  /**
   The first byte of a burst that starts at its bit `s`: what it does to the register from
   below cannot cancel a difference that stays clear of the top `8 - s` bits.
   */
  lemma FirstByte(c: bv32, b: bv8, b': bv8, d: bv32, s: nat)
    requires s <= 8 && Clear(ByteXor(b, b'), s) && StaysBelow(d, 8 - s)
    requires Absorb(c, b') == Xor(Absorb(c, b), d)
    ensures d == 0 && b == b'
  {
    hide Mix, Xor, ByteXor, Steps, Unsteps, Ups, Downs, StaysBelow, Clear, Bits8;
    var n, a, low := 8 - s, Mix(c, b), ByteXor(b, b');
    var x, e := Steps(a, s), Downs(low, s);
    ByteXorShape(c, b, b');
    StepsDifference(a, low, s);
    StepsAppend(a, s, n);
    StepsAppend(Xor(a, low), s, n);
    UnstepsSteps(x, n);
    UnstepsSteps(Xor(x, e), n);
    UnstepsDifference(Steps(a, 8), d, n);
    XorCancel(x, e, Ups(d, n));
    DownsUps(d, n);
    DownsAppend(low, s, n);
    ByteVanishes(low);
    UpsZero(n);
    UpsDowns(low, s);
    UpsZero(s);
  }

  function FourCarries(t: seq<bv8>, t': seq<bv8>): (d: bv32)
    requires |t| == |t'| == 4
  {
    Carry(Carry(Carry(Carry(0, t[3], t'[3]), t[2], t'[2]), t[1], t'[1]), t[0], t'[0])
  }

  lemma WindowOfFour(t: seq<bv8>, t': seq<bv8>)
    requires |t| == |t'| == 4
    ensures WindowDifference(0, t, t') == FourCarries(t, t')
  {
    hide Carry;
    assert t[..3][..2] == t[..2] && t[..2][..1] == t[..1] && t[..1][..0] == [];
    assert t'[..3][..2] == t'[..2] && t'[..2][..1] == t'[..1] && t'[..1][..0] == [];
    var d3 := Carry(0, t[3], t'[3]);
    var d2 := Carry(d3, t[2], t'[2]);
    var d1 := Carry(d2, t[1], t'[1]);
    assert WindowDifference(d1, t[..1], t'[..1]) == FourCarries(t, t');
    assert WindowDifference(d2, t[..2], t'[..2]) == FourCarries(t, t');
    assert WindowDifference(d3, t[..3], t'[..3]) == FourCarries(t, t');
  }

  lemma CarriesHighByte(b0: bv8, c0: bv8, b1: bv8, c1: bv8, b2: bv8, c2: bv8, b3: bv8, c3: bv8)
    ensures Right24(Carry(Carry(Carry(Carry(0, b3, c3), b2, c2), b1, c1), b0, c0)) == ByteXor(b3, c3)
  {
  }

  /** The last byte decides the top bits of the difference before the window. */
  lemma LastByte(t: seq<bv8>, t': seq<bv8>, s: nat)
    requires |t| == |t'| == 4 && s <= 8
    requires forall j: nat :: s <= j < 8 ==> ByteBit(t[3], j) == ByteBit(t'[3], j)
    ensures StaysBelow(WindowDifference(0, t, t'), 8 - s)
  {
    hide Carry, ByteXor, Right24, BitAt, StaysBelow, Downs, WindowDifference;
    var d := WindowDifference(0, t, t');
    WindowOfFour(t, t');
    CarriesHighByte(t[0], t'[0], t[1], t'[1], t[2], t'[2], t[3], t'[3]);
    DownsToHighByte(d);
    ByteXorShape(0, t[3], t'[3]);
    forall j: nat | 32 - (8 - s) <= j < 32
      ensures !BitAt(d, j)
    {
      BitAfterDowns(d, 24, j - 24);
      BitOfDifference(t[3] as bv32, t'[3] as bv32, j - 24);
      assert ByteBit(t[3], j - 24) == ByteBit(t'[3], j - 24);
    }
    HighBitsClear(d, 8 - s);
  }

  lemma ClearStart(b: bv8, b': bv8, s: nat)
    requires forall j: nat :: j < s ==> ByteBit(b, j) == ByteBit(b', j)
    ensures Clear(ByteXor(b, b'), s)
  {
    hide Xor, ByteXor, BitAt, Clear;
    ByteXorShape(0, b, b');
    forall j: nat | j < s
      ensures !BitAt(ByteXor(b, b'), j)
    {
      BitOfDifference(b as bv32, b' as bv32, j);
      assert ByteBit(b, j) == ByteBit(b', j);
    }
    ClearBits(ByteXor(b, b'), s);
  }

  /** Four bytes back from the same register: the difference before them, which vanishes only if they are the same. */
  lemma FourBack(c: bv32, c': bv32, t: seq<bv8>, t': seq<bv8>)
    requires |t| == |t'| == 4 && Register(c, t) == Register(c', t')
    ensures c' == Xor(c, WindowDifference(0, t, t'))
    ensures WindowDifference(0, t, t') == 0 ==> t == t'
  {
    hide Xor, Below, WindowDifference, Register;
    ZeroBelow(4);
    XorZero(Register(c, t), 0);
    WindowBack(c, c', t, t', 0);
  }

  lemma RegisterFirst(c: bv32, w: seq<bv8>)
    requires w != []
    ensures Register(c, w) == Register(Absorb(c, w[0]), w[1..])
  {
    hide Absorb, Register;
    assert w == [w[0]] + w[1..];
    RegisterAppend(c, [w[0]], w[1..]);
    RegisterOne(c, w[0]);
  }

  /** Five bytes that agree in the first `s` bits and from bit `s` of the last byte on are determined by the register. */
  lemma FiveBytesInjective(c: bv32, w: seq<bv8>, w': seq<bv8>, s: nat)
    requires |w| == |w'| == 5 && s <= 8 && Register(c, w) == Register(c, w')
    requires forall j: nat :: j < s ==> ByteBit(w[0], j) == ByteBit(w'[0], j)
    requires forall j: nat :: s <= j < 8 ==> ByteBit(w[4], j) == ByteBit(w'[4], j)
    ensures w == w'
  {
    hide Absorb, Xor, ByteXor, ByteBit, StaysBelow, Clear, WindowDifference, Register;
    var t, t' := w[1..], w'[1..];
    RegisterFirst(c, w);
    RegisterFirst(c, w');
    FourBack(Absorb(c, w[0]), Absorb(c, w'[0]), t, t');
    LastByte(t, t', s);
    ClearStart(w[0], w'[0], s);
    FirstByte(c, w[0], w'[0], WindowDifference(0, t, t'), s);
    assert w == [w[0]] + t && w' == [w'[0]] + t';
  }

  lemma RegisterOne(c: bv32, b: bv8)
    ensures Register(c, [b]) == Absorb(c, b)
  {
    hide Absorb;
    assert [b][..0] == [];
    assert Register(c, []) == c;
  }

  // ----- Messages

  /** Bit `k` of a message. */
  predicate Bit(data: seq<bv8>, k: nat)
    requires k < 8 * |data|
  {
    ByteBit(data[k / 8], k % 8)
  }

  /** All differing bits lie within 32 consecutive ones. */
  ghost predicate Burst(a: seq<bv8>, b: seq<bv8>, from: nat)
    requires |a| == |b|
  {
    forall k: nat :: k < 8 * |a| && Bit(a, k) != Bit(b, k) ==> from <= k < from + 32
  }

  lemma BitOfByte(data: seq<bv8>, i: nat, j: nat)
    requires i < |data| && j < 8
    ensures 8 * i + j < 8 * |data| && Bit(data, 8 * i + j) == ByteBit(data[i], j)
  {
    hide ByteBit;
    assert (8 * i + j) / 8 == i && (8 * i + j) % 8 == j;
  }

  lemma BurstBit(a: seq<bv8>, b: seq<bv8>, from: nat, i: nat, j: nat)
    requires |a| == |b| && Burst(a, b, from) && i < |a| && j < 8
    requires 8 * i + j < from || from + 32 <= 8 * i + j
    ensures ByteBit(a[i], j) == ByteBit(b[i], j)
  {
    hide ByteBit;
    BitOfByte(a, i, j);
    BitOfByte(b, i, j);
  }

  /** Bytes outside the five that a burst can touch are the same. */
  lemma BurstByte(a: seq<bv8>, b: seq<bv8>, from: nat, i: nat)
    requires |a| == |b| && Burst(a, b, from) && i < |a|
    requires i < from / 8 || from / 8 + 5 <= i
    ensures a[i] == b[i]
  {
    hide ByteBit, Burst;
    forall j: nat | j < 8
      ensures ByteBit(a[i], j) == ByteBit(b[i], j)
    {
      BurstBit(a, b, from, i, j);
    }
    SameByte(a[i], b[i]);
  }

  lemma SameRegisterWindow(before: seq<bv8>, w: seq<bv8>, w': seq<bv8>, after: seq<bv8>)
    requires |w| == |w'|
    requires Register(ALL_ONES, before + w + after) == Register(ALL_ONES, before + w' + after)
    ensures Register(Register(ALL_ONES, before), w) == Register(Register(ALL_ONES, before), w')
  {
    hide Register;
    var c := Register(ALL_ONES, before);
    RegisterAppend(ALL_ONES, before, w);
    RegisterAppend(ALL_ONES, before, w');
    RegisterAppend(ALL_ONES, before + w, after);
    RegisterAppend(ALL_ONES, before + w', after);
    CommonSuffix(Register(c, w), Register(c, w'), after);
  }

  /** The bytes a burst can touch. */
  lemma BurstWindow(a: seq<bv8>, b: seq<bv8>, from: nat) returns (lo: nat, hi: nat)
    requires |a| == |b| && Burst(a, b, from)
    ensures lo <= hi <= |a| && hi - lo <= 5 && a[..lo] == b[..lo] && a[hi..] == b[hi..]
    ensures hi - lo == 5 ==> lo == from / 8
  {
    hide Burst;
    lo := if from / 8 <= |a| then from / 8 else |a|;
    hi := if lo + 5 <= |a| then lo + 5 else |a|;
    forall i | 0 <= i < |a| && !(lo <= i < hi)
      ensures a[i] == b[i]
    {
      BurstByte(a, b, from, i);
    }
  }

  lemma FiveOfBurst(a: seq<bv8>, b: seq<bv8>, from: nat, c: bv32)
    requires |a| == |b| && Burst(a, b, from) && from / 8 + 5 <= |a|
    requires Register(c, a[from / 8..from / 8 + 5]) == Register(c, b[from / 8..from / 8 + 5])
    ensures a[from / 8..from / 8 + 5] == b[from / 8..from / 8 + 5]
  {
    hide Register, Burst, ByteBit;
    var lo, s := from / 8, from % 8;
    var w, w' := a[lo..lo + 5], b[lo..lo + 5];
    forall j: nat | j < s
      ensures ByteBit(w[0], j) == ByteBit(w'[0], j)
    {
      BurstBit(a, b, from, lo, j);
    }
    forall j: nat | s <= j < 8
      ensures ByteBit(w[4], j) == ByteBit(w'[4], j)
    {
      BurstBit(a, b, from, lo + 4, j);
    }
    FiveBytesInjective(c, w, w', s);
  }

  /** Messages with the same register that differ at most by a burst are the same. */
  lemma SameRegisterNoBurst(a: seq<bv8>, b: seq<bv8>, from: nat)
    requires |a| == |b| && Burst(a, b, from) && Register(ALL_ONES, a) == Register(ALL_ONES, b)
    ensures a == b
  {
    hide Register, Burst;
    var lo, hi := BurstWindow(a, b, from);
    var w, w' := a[lo..hi], b[lo..hi];
    assert a == a[..lo] + w + a[hi..] && b == a[..lo] + w' + a[hi..];
    SameRegisterWindow(a[..lo], w, w', a[hi..]);
    if |w| == 5 {
      FiveOfBurst(a, b, from, Register(ALL_ONES, a[..lo]));
    } else {
      WindowInjective(Register(ALL_ONES, a[..lo]), w, w');
    }
  }

  /** A burst of up to 32 bits, starting at any bit of a message of any length, changes the checksum. */
  lemma BitBurstDetected(a: seq<bv8>, b: seq<bv8>, from: nat)
    requires |a| == |b| && a != b && Burst(a, b, from)
    ensures Crc(a) != Crc(b)
  {
    hide Crc, Burst;
    if Crc(a) == Crc(b) {
      ComplementInjective(a, b);
      SameRegisterNoBurst(a, b, from);
    }
  }
}
