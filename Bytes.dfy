/** Fixed-width integers of fat.c and little-endian field access
    over byte buffers and over the (immutable) image. */
module Bytes {

  type Byte = x: int | 0 <= x < 0x100
  type U16 = x: int | 0 <= x < 0x1_0000
  type U32 = x: int | 0 <= x < 0x1_0000_0000
  type U64 = x: int | 0 <= x < 0x1_0000_0000_0000_0000

  const U32_LIMIT: int := 0x1_0000_0000
  const U64_LIMIT: int := 0x1_0000_0000_0000_0000

  /** `get8`: the byte at `off`. */
  function Get8(b: seq<Byte>, off: nat): (v: Byte)
    requires off < |b|
  {
    b[off]
  }

  /** `get16`: the little-endian 16-bit value at `off`. */
  function Get16(b: seq<Byte>, off: nat): (v: U16)
    requires off + 2 <= |b|
  {
    b[off] as int + 0x100 * b[off + 1] as int
  }

  /** `get32`: the little-endian 32-bit value at `off`. */
  function Get32(b: seq<Byte>, off: nat): (v: U32)
    requires off + 4 <= |b|
  {
    b[off] as int + 0x100 * b[off + 1] as int + 0x1_0000 * b[off + 2] as int + 0x100_0000 * b[off + 3] as int
  }

  /** The two bytes that encode `v` little-endian (the inverse of Get16). */
  function Le16(v: U16): (b: seq<Byte>)
  {
    [v % 0x100, v / 0x100]
  }

  /** The four bytes that encode `v` little-endian (the inverse of Get32). */
  function Le32(v: U32): (b: seq<Byte>)
  {
    [v % 0x100, (v / 0x100) % 0x100, (v / 0x1_0000) % 0x100, v / 0x100_0000]
  }

  lemma Get16Le16(v: U16)
    ensures Get16(Le16(v), 0) == v
  {
  }

  lemma Le16Get16(b: seq<Byte>, off: nat)
    requires off + 2 <= |b|
    ensures Le16(Get16(b, off)) == b[off..off + 2]
  {
  }

  lemma Get32Le32(v: U32)
    ensures Get32(Le32(v), 0) == v
  {
    var a := v / 0x100;
    var c := a / 0x100;
    var d := c / 0x100;
    DivMod(v, 0x1_0000, c, v % 0x100 + 0x100 * (a % 0x100));
    DivMod(v, 0x100_0000, d, v % 0x100 + 0x100 * (a % 0x100) + 0x1_0000 * (c % 0x100));
  }

  lemma Le32Get32(b: seq<Byte>, off: nat)
    requires off + 4 <= |b|
    ensures Le32(Get32(b, off)) == b[off..off + 4]
  {
    var b0, b1, b2, b3 := b[off] as int, b[off + 1] as int, b[off + 2] as int, b[off + 3] as int;
    var v := Get32(b, off);
    assert v == b0 + 0x100 * (b1 + 0x100 * (b2 + 0x100 * b3));
    DivMod(v, 0x100, b1 + 0x100 * (b2 + 0x100 * b3), b0);
    DivMod(v / 0x100, 0x100, b2 + 0x100 * b3, b1);
    DivMod(v, 0x1_0000, b2 + 0x100 * b3, b0 + 0x100 * b1);
    DivMod(v / 0x1_0000, 0x100, b3, b2);
    DivMod(v, 0x100_0000, b3, b0 + 0x100 * b1 + 0x1_0000 * b2);
  }

  /** Euclidean division is determined by quotient and remainder. */
  lemma DivMod(x: int, d: int, q: int, r: int)
    requires d > 0 && 0 <= r < d && x == q * d + r
    ensures x / d == q && x % d == r
  {
    var q', r' := x / d, x % d;
    assert (q' - q) * d == r - r';
    if q' > q {
      MulAtLeast(q' - q, d);
    } else if q' < q {
      MulAtLeast(q - q', d);
    }
  }

  /** Multiplying both sides of `x <= y` by a natural keeps the order. */
  lemma {:induction false} MulMono(x: int, y: int, k: nat)
    requires x <= y
    ensures x * k <= y * k
    decreases k
  {
    if k > 0 {
      MulMono(x, y, k - 1);
      assert x * k == x * (k - 1) + x && y * k == y * (k - 1) + y;
    }
  }

  /** A product of naturals is positive exactly when both factors are. */
  lemma MulPositive(a: nat, b: nat)
    ensures a * b > 0 <==> a > 0 && b > 0
  {
    if a > 0 && b > 0 {
      MulMono(1, a, b);
    }
  }

  /** A bound on a product of two bounded naturals. */
  lemma MulLess(a: nat, b: nat, bigA: nat, bigB: nat)
    requires a < bigA && b < bigB
    ensures a * b < bigA * bigB
  {
    MulMono(a, bigA, b);
    MulMono(b, bigB - 1, bigA);
    assert bigA * b <= bigA * (bigB - 1);
    assert bigA * (bigB - 1) == bigA * bigB - bigA;
  }

  /** Dividing by a positive integer does not increase a natural. */
  lemma DivAtMost(x: nat, d: int)
    requires d > 0
    ensures x / d <= x
  {
    var q := x / d;
    assert x == d * q + x % d;
    MulMono(1, d, q);
  }

  /** fat.c's unsigned division of a natural by a positive divisor. */
  function Quotient(x: nat, d: int): (q: nat)
    requires d > 0
    ensures q <= x
  {
    DivAtMost(x, d);
    x / d
  }

  lemma MulAtLeast(a: int, d: int)
    requires a >= 1 && d > 0
    ensures a * d >= d
  {
  }

  /** One byte of the image; positions outside the image read as zero. */
  function ByteAt(image: seq<Byte>, off: int): (v: Byte)
  {
    if 0 <= off < |image| then image[off] else 0
  }

  /** `fread` of `n` bytes at `off`, zero-filled past the end of the image. */
  function ReadBytes(image: seq<Byte>, off: int, n: nat): (r: seq<Byte>)
    ensures |r| == n
    ensures forall i :: 0 <= i < n ==> r[i] == ByteAt(image, off + i)
  {
    seq<Byte>(n, i requires 0 <= i < n => ByteAt(image, off + i))
  }

  lemma ReadBytesSplit(image: seq<Byte>, off: int, a: nat, b: nat)
    ensures ReadBytes(image, off, a + b) == ReadBytes(image, off, a) + ReadBytes(image, off + a, b)
  {
    var l, r := ReadBytes(image, off, a + b), ReadBytes(image, off, a) + ReadBytes(image, off + a, b);
    forall i | 0 <= i < a + b ensures l[i] == r[i] {
      if i >= a {
        assert r[i] == ReadBytes(image, off + a, b)[i - a];
      }
    }
  }

  lemma ReadBytesInside(image: seq<Byte>, off: nat, n: nat)
    requires off + n <= |image|
    ensures ReadBytes(image, off, n) == image[off..off + n]
  {
  }
}
