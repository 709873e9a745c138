/** Machine words of the i386 target: unsigned bytes and 32-bit words as bounded integers,
    little-endian access to byte memory, and bitwise OR. */
module Words {

  const U32_LIMIT := 0x1_0000_0000

  type byte = x: int | 0 <= x < 256
  type u32 = x: int | 0 <= x < U32_LIMIT

  /** `char` is signed on the target. */
  type schar = x: int | -128 <= x < 128

  datatype Option<+T> = None | Some(value: T)

  /** Unsigned 32-bit addition drops the carry. */
  function Add32(a: u32, b: u32): u32 {
    if a + b < U32_LIMIT then a + b else a + b - U32_LIMIT
  }

  /** The little-endian word at byte offset `o`. */
  function ReadU32(m: seq<byte>, o: nat): u32
    requires o + 4 <= |m|
  {
    (m[o] as int) + 0x100 * (m[o + 1] as int) + 0x1_0000 * (m[o + 2] as int) + 0x100_0000 * (m[o + 3] as int)
  }

  /** Byte `k` of the little-endian representation of `v`. */
  function ByteOf(v: u32, k: nat): byte
    requires k < 4
  {
    match k
    case 0 => v % 0x100
    case 1 => v / 0x100 % 0x100
    case 2 => v / 0x1_0000 % 0x100
    case _ => v / 0x100_0000
  }

  /** A word is made up of its four bytes. */
  lemma Recompose(v: u32)
    ensures (ByteOf(v, 0) as int) + 0x100 * (ByteOf(v, 1) as int) + 0x1_0000 * (ByteOf(v, 2) as int)
         + 0x100_0000 * (ByteOf(v, 3) as int) == v
  {
    var a := v / 0x100;
    var b := a / 0x100;
    assert v / 0x1_0000 == b && v / 0x100_0000 == b / 0x100;
    assert a == 0x100 * b + a % 0x100 && b == 0x100 * (b / 0x100) + b % 0x100;
  }

  /** Memory after storing `v` at byte offset `o`. */
  function WriteU32(m: seq<byte>, o: nat, v: u32): (r: seq<byte>)
    requires o + 4 <= |m|
    ensures |r| == |m|
    ensures forall i :: 0 <= i < |m| && !(o <= i < o + 4) ==> r[i] == m[i]
  {
    m[o := ByteOf(v, 0)][o + 1 := ByteOf(v, 1)][o + 2 := ByteOf(v, 2)][o + 3 := ByteOf(v, 3)]
  }

  lemma ReadBack(m: seq<byte>, o: nat, v: u32)
    requires o + 4 <= |m|
    ensures ReadU32(WriteU32(m, o, v), o) == v
  {
    Recompose(v);
  }

  /** The least significant byte comes first in memory. */
  lemma LittleEndian(m: seq<byte>, o: nat, v: u32)
    requires o + 4 <= |m|
    ensures var r := WriteU32(m, o, v);
      && (r[o] as int) == v % 0x100 && (r[o + 1] as int) == v / 0x100 % 0x100
      && (r[o + 2] as int) == v / 0x1_0000 % 0x100 && (r[o + 3] as int) == v / 0x100_0000
  {
  }

  /** Bitwise OR of two unsigned words. */
  function BitOr(a: nat, b: nat): nat
    decreases a + b
  {
    if a == 0 then b
    else if b == 0 then a
    else 2 * BitOr(a / 2, b / 2) + (if a % 2 == 1 || b % 2 == 1 then 1 else 0)
  }

  /** `a` shifted left by `k` bits. */
  function Shl(a: nat, k: nat): nat {
    if k == 0 then a else 2 * Shl(a, k - 1)
  }

  /** OR works bit by bit: here is bit 0. */
  lemma BitOrHalves(a: nat, b: nat)
    ensures BitOr(a, b) == 2 * BitOr(a / 2, b / 2) + (if a % 2 == 1 || b % 2 == 1 then 1 else 0)
  {
  }

  /** Bit `k` of a word. */
  predicate NthBit(a: nat, k: nat) {
    if k == 0 then a % 2 == 1 else NthBit(a / 2, k - 1)
  }

  /** Every bit of `a | b` is set exactly if it is set in one of the two. */
  lemma {:induction false} OrBits(a: nat, b: nat, k: nat)
    ensures NthBit(BitOr(a, b), k) <==> NthBit(a, k) || NthBit(b, k)
  {
    BitOrHalves(a, b);
    if k == 0 {
    } else {
      OrBits(a / 2, b / 2, k - 1);
    }
  }

  /** OR acts independently on the low `k` bits and on the bits above them. */
  lemma {:induction false} BitOrSplit(a: nat, b: nat, c: nat, d: nat, k: nat)
    requires c < Shl(1, k) && d < Shl(1, k)
    ensures BitOr(Shl(a, k) + c, Shl(b, k) + d) == Shl(BitOr(a, b), k) + BitOr(c, d)
  {
    if k == 0 {
    } else {
      BitOrSplit(a, b, c / 2, d / 2, k - 1);
      HalfOfSum(a, c, k);
      HalfOfSum(b, d, k);
      BitOrHalves(Shl(a, k) + c, Shl(b, k) + d);
      BitOrHalves(c, d);
    }
  }

  lemma HalfOfSum(a: nat, c: nat, k: nat)
    requires k > 0
    ensures (Shl(a, k) + c) / 2 == Shl(a, k - 1) + c / 2 && (Shl(a, k) + c) % 2 == c % 2
  {
  }

  lemma Shl12(a: nat)
    ensures Shl(a, 12) == 4096 * a
  {
    assert Shl(a, 1) == 2 * a;
    assert Shl(a, 2) == 4 * a;
    assert Shl(a, 4) == 16 * a;
    assert Shl(a, 6) == 64 * a;
    assert Shl(a, 8) == 256 * a;
    assert Shl(a, 10) == 1024 * a;
  }

  /** OR of a page-aligned word with any word: the low 12 bits come from the second word, the
      frame number is the OR of the two frame numbers. */
  lemma BitOrPage(frame: nat, flags: nat)
    ensures BitOr(frame * 4096, flags) / 4096 == BitOr(frame, flags / 4096)
    ensures BitOr(frame * 4096, flags) % 4096 == flags % 4096
  {
    Shl12(1);
    Shl12(frame);
    Shl12(flags / 4096);
    Shl12(BitOr(frame, flags / 4096));
    BitOrSplit(frame, flags / 4096, 0, flags % 4096, 12);
  }

  lemma {:induction false} BitOrBound(a: nat, b: nat, k: nat)
    requires a < Shl(1, k) && b < Shl(1, k)
    ensures BitOr(a, b) < Shl(1, k)
  {
    if k == 0 {
    } else {
      BitOrBound(a / 2, b / 2, k - 1);
      BitOrHalves(a, b);
    }
  }

  lemma {:induction false} ShlAdd(a: nat, j: nat, k: nat)
    ensures Shl(Shl(a, j), k) == Shl(a, j + k)
  {
    if k == 0 {
    } else {
      ShlAdd(a, j, k - 1);
    }
  }

  lemma Shl32()
    ensures Shl(1, 32) == U32_LIMIT
  {
    Shl12(1);
    Shl12(4096);
    ShlAdd(1, 12, 12);
    ShlAdd(1, 24, 8);
    var x := Shl(1, 24);
    assert Shl(x, 2) == 4 * x && Shl(x, 4) == 16 * x && Shl(x, 6) == 64 * x;
  }

  /** `a | b` on 32-bit words. */
  function Or32(a: u32, b: u32): u32 {
    Shl32();
    BitOrBound(a, b, 32);
    BitOr(a, b)
  }
}
