/** The bitwise CRC-32 (polynomial 0xEDB88320) that protects the boot-control record. */
module Crc32 {
  const POLYNOMIAL: bv32 := 0xEDB8_8320
  const ALL_ONES: bv32 := 0xFFFF_FFFF

  /** One shift of the register. */
  function Step(c: bv32): (r: bv32)
  {
    if c & 1 == 1 then (c >> 1) ^ POLYNOMIAL else c >> 1
  }

  function Steps(c: bv32, n: nat): (r: bv32)
  {
    if n == 0 then c else Step(Steps(c, n - 1))
  }

  /** A message byte enters the low end of the register. */
  function Mix(c: bv32, b: bv8): (r: bv32) { c ^ (b as bv32) }

  /** The register after one message byte. */
  function Absorb(c: bv32, b: bv8): (r: bv32) { Steps(Mix(c, b), 8) }

  /** The register after a message. */
  function Register(c: bv32, data: seq<bv8>): (r: bv32)
  {
    if data == [] then c else Absorb(Register(c, data[..|data| - 1]), data[|data| - 1])
  }

  function Crc(data: seq<bv8>): (r: bv32) { !Register(ALL_ONES, data) }

  method ComputeCrc(data: seq<bv8>) returns (r: bv32)
    ensures r == Crc(data)
  {
    hide Step, Mix;
    var crc := ALL_ONES;
    for i := 0 to |data|
      invariant crc == Register(ALL_ONES, data[..i])
    {
      ghost var mixed := Mix(crc, data[i]);
      crc := Mix(crc, data[i]);
      for k := 0 to 8
        invariant crc == Steps(mixed, k)
      {
        crc := Step(crc);
      }
      assert data[..i + 1][..i] == data[..i];
    }
    assert data[..|data|] == data;
    r := !crc;
  }

  // ----- The shift can be undone

  function Xor(a: bv32, b: bv32): (r: bv32) { a ^ b }
  function Up(r: bv32): (c: bv32) { r << 1 }
  function UpWithPolynomial(r: bv32): (c: bv32) { ((r ^ 0xEDB8_8320) << 1) | 1 }
  predicate Top(r: bv32) { r & 0x8000_0000 != 0 }

  /** Undoes one shift: the top bit tells whether the polynomial was added. */
  function Unstep(r: bv32): (c: bv32)
  {
    if Top(r) then UpWithPolynomial(r) else Up(r)
  }

  lemma UnstepStep(c: bv32)
    ensures Unstep(Step(c)) == c
  {
  }

  function Unsteps(r: bv32, n: nat): (c: bv32)
    decreases n
  {
    if n == 0 then r else Unsteps(Unstep(r), n - 1)
  }

  lemma {:induction false} UnstepsSteps(c: bv32, n: nat)
    ensures Unsteps(Steps(c, n), n) == c
  {
    hide Step, Unstep;
    if n > 0 {
      UnstepStep(Steps(c, n - 1));
      UnstepsSteps(c, n - 1);
    }
  }

  lemma MixTwice(c: bv32, b: bv8)
    ensures Mix(Mix(c, b), b) == c
  {
  }

  /** The register before a message byte, from the register after it. */
  function Unabsorb(r: bv32, b: bv8): (c: bv32) { Mix(Unsteps(r, 8), b) }

  lemma UnabsorbAbsorb(c: bv32, b: bv8)
    ensures Unabsorb(Absorb(c, b), b) == c
  {
    hide Mix, Step, Unstep, Steps, Unsteps;
    UnstepsSteps(Mix(c, b), 8);
    MixTwice(c, b);
  }

  /** Different registers stay different over any common message. */
  lemma {:induction false} CommonSuffix(c: bv32, d: bv32, data: seq<bv8>)
    requires Register(c, data) == Register(d, data)
    ensures c == d
    decreases |data|
  {
    hide Absorb, Unabsorb;
    if data != [] {
      var init, b := data[..|data| - 1], data[|data| - 1];
      UnabsorbAbsorb(Register(c, init), b);
      UnabsorbAbsorb(Register(d, init), b);
      CommonSuffix(c, d, init);
    }
  }

  // ----- Differences travel upwards while they stay below the top bit

  predicate Bits8(d: bv32) { d < 0x100 }
  predicate Bits16(d: bv32) { d < 0x1_0000 }
  predicate Bits24(d: bv32) { d < 0x100_0000 }

  /** The difference `d` is confined to its lowest `32 - 8 * k` bits. */
  predicate Below(d: bv32, k: nat)
    requires k <= 4
  {
    if k == 4 then d == 0 else if k == 3 then Bits8(d) else if k == 2 then Bits16(d) else k == 1 ==> Bits24(d)
  }

  lemma TopOfDifference(a: bv32, d: bv32)
    requires !Top(d)
    ensures Top(Xor(a, d)) == Top(a)
  {
  }

  lemma UpOfDifference(a: bv32, d: bv32)
    ensures Up(Xor(a, d)) == Xor(Up(a), Up(d))
    ensures UpWithPolynomial(Xor(a, d)) == Xor(UpWithPolynomial(a), Up(d))
  {
  }

  /** While two registers agree in the top bit, undoing a shift only moves their difference up. */
  lemma UnstepDifference(a: bv32, d: bv32)
    requires !Top(d)
    ensures Unstep(Xor(a, d)) == Xor(Unstep(a), Up(d))
  {
    hide Xor, Up, UpWithPolynomial, Top;
    TopOfDifference(a, d);
    UpOfDifference(a, d);
  }

  function Ups(d: bv32, n: nat): (r: bv32)
    decreases n
  {
    if n == 0 then d else Ups(Up(d), n - 1)
  }

  /** None of the next `n` differences reaches the top bit. */
  predicate StaysBelow(d: bv32, n: nat)
    decreases n
  {
    n == 0 || (!Top(d) && StaysBelow(Up(d), n - 1))
  }

  lemma {:induction false} UnstepsDifference(a: bv32, d: bv32, n: nat)
    requires StaysBelow(d, n)
    ensures Unsteps(Xor(a, d), n) == Xor(Unsteps(a, n), Ups(d, n))
    decreases n
  {
    hide Xor, Up, Unstep, Top;
    if n > 0 {
      UnstepDifference(a, d);
      UnstepsDifference(Unstep(a), Up(d), n - 1);
    }
  }

  function Shift8(d: bv32): (r: bv32) { d << 8 }

  lemma EightUps(d: bv32)
    requires Bits24(d)
    ensures StaysBelow(d, 8) && Ups(d, 8) == Shift8(d)
  {
    var d1 := Up(d);
    var d2 := Up(d1);
    var d3 := Up(d2);
    var d4 := Up(d3);
    var d5 := Up(d4);
    var d6 := Up(d5);
    var d7 := Up(d6);
    assert !Top(d) && !Top(d1) && !Top(d2) && !Top(d3) && !Top(d4) && !Top(d5) && !Top(d6) && !Top(d7);
    assert StaysBelow(Up(d7), 0) && StaysBelow(d7, 1) && StaysBelow(d6, 2) && StaysBelow(d5, 3);
    assert StaysBelow(d4, 4) && StaysBelow(d3, 5) && StaysBelow(d2, 6) && StaysBelow(d1, 7);
    assert Ups(Up(d7), 0) == Up(d7) && Ups(d7, 1) == Up(d7) && Ups(d6, 2) == Up(d7) && Ups(d5, 3) == Up(d7);
    assert Ups(d4, 4) == Up(d7) && Ups(d3, 5) == Up(d7) && Ups(d2, 6) == Up(d7) && Ups(d1, 7) == Up(d7);
  }

  // ----- A window of four bytes

  /** What the difference becomes when a pair of message bytes is taken back. */
  function Carry(d: bv32, b: bv8, b': bv8): (r: bv32) { (d << 8) ^ (b as bv32) ^ (b' as bv32) }

  lemma MixDifference(c: bv32, d: bv32, b: bv8, b': bv8)
    ensures Mix(Xor(c, Shift8(d)), b') == Xor(Mix(c, b), Carry(d, b, b'))
  {
  }

  lemma UnabsorbDifference(c: bv32, d: bv32, b: bv8, b': bv8)
    requires Below(d, 1)
    ensures Unabsorb(Xor(c, d), b') == Xor(Unabsorb(c, b), Carry(d, b, b'))
  {
    EightUps(d);
    hide Mix, Xor, Carry, Unsteps, StaysBelow, Ups, Below;
    UnstepsDifference(c, d, 8);
    MixDifference(Unsteps(c, 8), d, b, b');
  }

  lemma Confined(d: bv32)
    ensures d == 0 ==> Bits8(d)
    ensures Bits8(d) ==> Bits16(d)
    ensures Bits16(d) ==> Bits24(d)
  {
  }

  lemma CarryConfined(d: bv32, b: bv8, b': bv8)
    ensures d == 0 ==> Bits8(Carry(d, b, b'))
    ensures Bits8(d) ==> Bits16(Carry(d, b, b'))
    ensures Bits16(d) ==> Bits24(Carry(d, b, b'))
  {
  }

  lemma CarryVanishes(d: bv32, b: bv8, b': bv8)
    requires Bits24(d)
    ensures Carry(d, b, b') == 0 ==> d == 0 && b == b'
  {
  }

  /** A confined difference loses no bits on the way, so it vanishes only if nothing differed. */
  lemma CarryBelow(d: bv32, k: nat, b: bv8, b': bv8)
    requires 1 <= k <= 4 && Below(d, k)
    ensures Below(d, 1) && Below(Carry(d, b, b'), k - 1)
    ensures Carry(d, b, b') == 0 ==> d == 0 && b == b'
  {
    hide Carry, Bits8, Bits16, Bits24;
    Confined(d);
    CarryConfined(d, b, b');
    CarryVanishes(d, b, b');
  }

  function WindowDifference(d: bv32, w: seq<bv8>, w': seq<bv8>): (r: bv32)
    requires |w| == |w'|
    decreases |w|
  {
    if w == [] then d
    else WindowDifference(Carry(d, w[|w| - 1], w'[|w| - 1]), w[..|w| - 1], w'[..|w| - 1])
  }

  /** From the registers after a window of at most four bytes to those before it. */
  lemma {:induction false} WindowBack(c: bv32, c': bv32, w: seq<bv8>, w': seq<bv8>, d: bv32)
    requires |w| == |w'| <= 4 && Below(d, |w|)
    requires Register(c', w') == Xor(Register(c, w), d)
    ensures c' == Xor(c, WindowDifference(d, w, w'))
    ensures WindowDifference(d, w, w') == 0 ==> d == 0 && w == w'
    decreases |w|
  {
    hide Absorb, Unabsorb, Carry, Xor, Below;
    if w != [] {
      var n := |w| - 1;
      var init, b, init', b' := w[..n], w[n], w'[..n], w'[n];
      UnabsorbAbsorb(Register(c, init), b);
      UnabsorbAbsorb(Register(c', init'), b');
      CarryBelow(d, |w|, b, b');
      UnabsorbDifference(Register(c, w), d, b, b');
      WindowBack(c, c', init, init', Carry(d, b, b'));
      assert w == init + [b] && w' == init' + [b'];
    }
  }

  lemma XorZero(c: bv32, d: bv32)
    ensures Xor(c, 0) == c
    ensures c == Xor(c, d) ==> d == 0
  {
  }

  lemma ZeroBelow(k: nat)
    requires k <= 4
    ensures Below(0, k)
  {
    hide Bits8, Bits16, Bits24;
    Confined(0);
  }

  /** Four bytes or fewer are determined by what they do to a register. */
  lemma WindowInjective(c: bv32, w: seq<bv8>, w': seq<bv8>)
    requires |w| == |w'| <= 4 && Register(c, w) == Register(c, w')
    ensures w == w'
  {
    hide Register, Xor, Below, WindowDifference;
    ZeroBelow(|w|);
    XorZero(Register(c, w), 0);
    WindowBack(c, c, w, w', 0);
    XorZero(c, WindowDifference(0, w, w'));
  }

  lemma {:induction false} RegisterAppend(c: bv32, a: seq<bv8>, b: seq<bv8>)
    ensures Register(c, a + b) == Register(Register(c, a), b)
    decreases |b|
  {
    hide Absorb;
    if b == [] {
      assert a + b == a;
    } else {
      assert (a + b)[..|a + b| - 1] == a + b[..|b| - 1];
      RegisterAppend(c, a, b[..|b| - 1]);
    }
  }

  lemma ComplementInjective(data: seq<bv8>, data': seq<bv8>)
    requires Crc(data) == Crc(data')
    ensures Register(ALL_ONES, data) == Register(ALL_ONES, data')
  {
    hide Register;
  }

  lemma SameCrcSameWindow(before: seq<bv8>, w: seq<bv8>, w': seq<bv8>, after: seq<bv8>)
    requires |w| == |w'| <= 4 && Crc(before + w + after) == Crc(before + w' + after)
    ensures w == w'
  {
    hide Register, Crc;
    var c := Register(ALL_ONES, before);
    ComplementInjective(before + w + after, before + w' + after);
    RegisterAppend(ALL_ONES, before, w);
    RegisterAppend(ALL_ONES, before, w');
    RegisterAppend(ALL_ONES, before + w, after);
    RegisterAppend(ALL_ONES, before + w', after);
    CommonSuffix(Register(c, w), Register(c, w'), after);
    WindowInjective(c, w, w');
  }

  /** Two messages that differ only in one window of at most four bytes have different checksums. */
  lemma BurstDetected(before: seq<bv8>, w: seq<bv8>, w': seq<bv8>, after: seq<bv8>)
    requires |w| == |w'| <= 4 && w != w'
    ensures Crc(before + w + after) != Crc(before + w' + after)
  {
    hide Crc;
    if Crc(before + w + after) == Crc(before + w' + after) {
      SameCrcSameWindow(before, w, w', after);
    }
  }

  /** The same by positions: all differences lie within four consecutive bytes. */
  lemma CloseDifferencesDetected(a: seq<bv8>, b: seq<bv8>, from: nat)
    requires |a| == |b| && a != b
    requires forall i :: 0 <= i < |a| && a[i] != b[i] ==> from <= i < from + 4
    ensures Crc(a) != Crc(b)
  {
    hide Crc;
    var lo := if from <= |a| then from else |a|;
    var hi := if from + 4 <= |a| then from + 4 else |a|;
    assert a[..lo] == b[..lo] && a[hi..] == b[hi..];
    assert a == a[..lo] + a[lo..hi] + a[hi..] && b == a[..lo] + b[lo..hi] + a[hi..];
    BurstDetected(a[..lo], a[lo..hi], b[lo..hi], a[hi..]);
  }
}
