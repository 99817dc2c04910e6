/** Bytes and packed colours: the value types shared by every part of the worker. */
module Pixels {

  /** One byte of an RGBA buffer, a Uint8Array or a Uint8ClampedArray. */
  type byte = b: int | 0 <= b < 256

  datatype Option<+T> = None | Some(value: T)

  /** Storing an integer into a Uint8Array keeps it modulo 2^8 (ToUint8). */
  function ToUint8(n: int): (b: byte)
    ensures 0 <= n < 256 ==> b == n
    ensures (b - n) % 256 == 0
  {
    n % 256
  }

  /** `r << 16 | g << 8 | b`, the colour identity of a pixel (alpha never takes part). */
  function Pack(r: byte, g: byte, b: byte): (c: int)
    ensures 0 <= c < 0x100_0000
  {
    r * 0x1_0000 + g * 0x100 + b
  }

  /** The three lanes of a packed colour recovered by shifting and masking. */
  function Red(c: int): int { c / 0x1_0000 % 0x100 }
  function Green(c: int): int { c / 0x100 % 0x100 }
  function Blue(c: int): int { c % 0x100 }

  /** `2^k`. */
  function Pow2(k: nat): (p: nat)
    ensures 0 < p
  {
    if k == 0 then 1 else 2 * Pow2(k - 1)
  }

  /** `a | b` on non-negative integers, bit by bit from the lowest. */
  function BitOr(a: nat, b: nat): nat
    decreases a + b
  {
    if a == 0 then b
    else if b == 0 then a
    else 2 * BitOr(a / 2, b / 2) + (if a % 2 == 1 || b % 2 == 1 then 1 else 0)
  }

  /** A value shifted left by `k` has no bit in common with one below `2^k`, so OR-ing
      them adds them. */
  lemma {:induction false} OrDisjoint(x: nat, y: nat, k: nat)
    requires y < Pow2(k)
    ensures BitOr(x * Pow2(k), y) == x * Pow2(k) + y
  {
    var a := x * Pow2(k);
    if k > 0 && a != 0 && y != 0 {
      assert a / 2 == x * Pow2(k - 1) && a % 2 == 0;
      OrDisjoint(x, y / 2, k - 1);
    }
  }

  /** The source's `0 << 24 | r << 16 | g << 8 | b` is `Pack`: on byte lanes no shift
      leaves the 31 value bits of a JavaScript integer, so `x << k` is `x * 2^k`, and the
      three shifted lanes occupy disjoint bits. */
  lemma PackIsBitwiseOr(r: byte, g: byte, b: byte)
    ensures BitOr(BitOr(BitOr(0 * Pow2(24), r * Pow2(16)), g * Pow2(8)), b) == Pack(r, g, b)
  {
    assert Pow2(8) == 0x100 && Pow2(16) == 0x1_0000;
    OrDisjoint(r, g * 0x100, 16);
    OrDisjoint(r * 0x100 + g, b, 8);
  }

  /** Packing is lossless on bytes: each lane comes back out. */
  lemma UnpackPack(r: byte, g: byte, b: byte)
    ensures Red(Pack(r, g, b)) == r && Green(Pack(r, g, b)) == g && Blue(Pack(r, g, b)) == b
  {
    var c := Pack(r, g, b);
    assert c / 0x100 == r * 0x100 + g;
    assert c / 0x1_0000 == r;
  }

  /** Every 24-bit colour is the packing of its own lanes. */
  lemma PackUnpack(c: int)
    requires 0 <= c < 0x100_0000
    ensures 0 <= Red(c) < 256 && 0 <= Green(c) < 256 && 0 <= Blue(c) < 256
    ensures Pack(Red(c), Green(c), Blue(c)) == c
  {
    var hi := c / 0x100;
    assert c == hi * 0x100 + Blue(c);
    assert hi == (hi / 0x100) * 0x100 + Green(c);
    assert hi / 0x100 == c / 0x1_0000;
    assert Red(c) == c / 0x1_0000;
  }

  /** Two pixels have the same colour identity exactly when their RGB lanes agree. */
  lemma PackInjective(r: byte, g: byte, b: byte, r': byte, g': byte, b': byte)
    ensures Pack(r, g, b) == Pack(r', g', b') <==> r == r' && g == g' && b == b'
  {
    UnpackPack(r, g, b);
    UnpackPack(r', g', b');
  }
}
