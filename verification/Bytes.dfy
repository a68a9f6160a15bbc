/** Bytes, byte strings and the fixed-width integer encodings shared by the models. */
module Bytes {
  type Byte = x: int | 0 <= x < 256

  datatype Option<+T> = None | Some(value: T)

  datatype Result<+T> = Ok(value: T) | Err {
    predicate IsFailure() { Err? }
    function PropagateFailure<U>(): Result<U> requires Err? { Err }
    function Extract(): T requires Ok? { value }
  }

  /** Exclusive or with one. */
  function FlipLowBit(b: Byte): (r: Byte) { if b % 2 == 0 then b + 1 else b - 1 }

  /** `s` with the low bit of byte `p` inverted. */
  function Flipped(s: seq<Byte>, p: nat): (r: seq<Byte>)
    requires p < |s|
    ensures |r| == |s|
  {
    s[p := FlipLowBit(s[p])]
  }

  function Min(a: nat, b: nat): (r: nat) { if a <= b then a else b }

  type Word = x: int | 0 <= x < 0x1_0000

  /** A big-endian 16-bit field. */
  function Be16(b: seq<Byte>, o: nat): (r: Word)
    requires o + 2 <= |b|
  {
    256 * b[o] as int + b[o + 1] as int
  }

  function Pack16(w: Word): (s: seq<Byte>)
    ensures |s| == 2 && Be16(s, 0) == w
  {
    [w / 256, w % 256]
  }

  /** 256 to the power `width`: the number of values a `width`-byte field can hold. */
  function Pow256(width: nat): (r: nat)
    ensures r >= 1
  {
    if width == 0 then 1 else 256 * Pow256(width - 1)
  }

  /** The `to_le_bytes` encoding of a `width`-byte unsigned integer. */
  function LittleEndian(v: nat, width: nat): (s: seq<Byte>)
    ensures |s| == width
  {
    if width == 0 then [] else [v % 256] + LittleEndian(v / 256, width - 1)
  }

  /** A value that fits its field is determined by the encoding. */
  lemma {:induction false} LittleEndianInjective(a: nat, b: nat, width: nat)
    requires a < Pow256(width) && b < Pow256(width)
    requires LittleEndian(a, width) == LittleEndian(b, width)
    ensures a == b
  {
    if width > 0 {
      assert LittleEndian(a, width)[0] == a % 256 && LittleEndian(b, width)[0] == b % 256;
      assert LittleEndian(a, width)[1..] == LittleEndian(a / 256, width - 1);
      assert LittleEndian(b, width)[1..] == LittleEndian(b / 256, width - 1);
      LittleEndianInjective(a / 256, b / 256, width - 1);
    }
  }
}
