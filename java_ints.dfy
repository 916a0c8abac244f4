/** Java's fixed-width integers, as the modelled code uses them: signed bytes,
    32-bit wrap-around, the unsigned shift `>>> 1`, the 4-byte integer field
    that `UDP.set4`/`UDP.get4` write into and read from a byte array, and the
    two array primitives (`System.arraycopy`, an in-place multi-byte store). */
module JavaInts {

  const TWO32: int := 0x1_0000_0000
  const MIN_INT: int := -0x8000_0000
  const MAX_INT: int := 0x7FFF_FFFF
  const MAX_SHORT: int := 0x7FFF

  /** A Java `byte`: two's complement, -128..127. */
  newtype byte = x: int | -128 <= x < 128

  predicate IsInt(x: int) { MIN_INT <= x <= MAX_INT }

  function Min(a: int, b: int): int { if a <= b then a else b }
  function Max(a: int, b: int): int { if a >= b then a else b }

  /** Java's `(byte) x`: keep the low 8 bits and read them as two's complement. */
  function ToByte(x: int): (b: byte)
    ensures (b as int - x) % 0x100 == 0
    ensures -128 <= x < 128 ==> b as int == x
  {
    var u := x % 0x100;
    if u < 0x80 then u as byte else (u - 0x100) as byte
  }

  /** `0xFF & b`: the unsigned reading of a signed byte. */
  function Unsigned(b: byte): (u: int)
    ensures 0 <= u < 0x100
    ensures ToByte(u) == b
  {
    if b < 0 then b as int + 0x100 else b as int
  }

  /** Every unsigned code 0..255 survives the signed-byte store. */
  lemma UnsignedOfToByte(x: int)
    ensures Unsigned(ToByte(x)) == x % 0x100
  {
  }

  /** Java `int` arithmetic: the mathematical result reduced modulo 2^32 into
      the signed range. */
  function Wrap(x: int): (r: int)
    ensures IsInt(r)
    ensures (r - x) % TWO32 == 0
    ensures IsInt(x) ==> r == x
  {
    var u := x % TWO32;
    if u <= MAX_INT then u else u - TWO32
  }

  /** Two numbers congruent modulo 2^32 wrap to the same Java int. */
  lemma WrapCongruent(x: int, y: int, k: int)
    requires x - y == k * TWO32
    ensures Wrap(x) == Wrap(y)
  {
    assert x % TWO32 == y % TWO32;
  }

  /** `x >>> 1` on a Java int: shift the 32-bit pattern right, filling with 0. */
  function UShr1(x: int): (r: int)
    requires IsInt(x)
    ensures 0 <= r <= MAX_INT
  {
    (if x < 0 then x + TWO32 else x) / 2
  }

  /** `(hi + lo) >>> 1` is the true midpoint even when `hi + lo` overflows. */
  lemma MidpointNoOverflow(lo: int, hi: int)
    requires 0 <= lo <= MAX_INT && 0 <= hi <= MAX_INT
    ensures UShr1(Wrap(lo + hi)) == (lo + hi) / 2
  {
  }

  /** The four bytes `UDP.set4` stores for `x`, least significant first.
      UDP is not part of this model; only that the layout is invertible is used. */
  function Int4(x: int): (s: seq<byte>)
    requires IsInt(x)
    ensures |s| == 4
  {
    var u := x % TWO32;
    [ToByte(u), ToByte(u / 0x100), ToByte(u / 0x1_0000), ToByte(u / 0x100_0000)]
  }

  /** `UDP.get4(s, off)`: the Java int held in `s[off..off+4]`. */
  function Get4(s: seq<byte>, off: int): (x: int)
    requires 0 <= off && off + 4 <= |s|
    ensures IsInt(x)
  {
    Wrap(Unsigned(s[off]) + 0x100 * Unsigned(s[off + 1])
         + 0x1_0000 * Unsigned(s[off + 2]) + 0x100_0000 * Unsigned(s[off + 3]))
  }

  /** Splitting off the low byte of a non-negative number. */
  lemma LowByte(v: int)
    requires 0 <= v
    ensures v == v % 0x100 + 0x100 * (v / 0x100)
  {
  }

  /** Repeated division by 256 is division by the matching power. */
  lemma DivTwice(v: int)
    requires 0 <= v
    ensures v / 0x100 / 0x100 == v / 0x1_0000
    ensures v / 0x1_0000 / 0x100 == v / 0x100_0000
  {
  }

  /** The four stored bytes, read unsigned, are the base-256 digits of `u`. */
  lemma Int4Digits(u: int)
    requires 0 <= u < TWO32
    ensures Unsigned(ToByte(u)) + 0x100 * Unsigned(ToByte(u / 0x100))
            + 0x1_0000 * Unsigned(ToByte(u / 0x1_0000))
            + 0x100_0000 * Unsigned(ToByte(u / 0x100_0000)) == u
  {
    var u1, u2, u3 := u / 0x100, u / 0x1_0000, u / 0x100_0000;
    DivTwice(u);
    UnsignedOfToByte(u);
    UnsignedOfToByte(u1);
    UnsignedOfToByte(u2);
    UnsignedOfToByte(u3);
    LowByte(u);
    LowByte(u1);
    LowByte(u2);
  }

  /** `get4` reads back exactly what `set4` stored. */
  lemma Int4RoundTrip(x: int)
    requires IsInt(x)
    ensures Get4(Int4(x), 0) == x
  {
    var u := x % TWO32;
    assert Wrap(u) == x by {
      assert u == if x >= 0 then x else x + TWO32;
    }
    assert Get4(Int4(x), 0) == Wrap(u) by {
      Int4Digits(u);
    }
  }

  /** Distinct ints give distinct 4-byte fields. */
  lemma Int4Injective(x: int, y: int)
    requires IsInt(x) && IsInt(y)
    ensures Int4(x) == Int4(y) <==> x == y
  {
    if Int4(x) == Int4(y) {
      Int4RoundTrip(x);
      Int4RoundTrip(y);
    }
  }

  /** `get4` only looks at the four bytes at its offset. */
  lemma Get4Window(s: seq<byte>, off: int)
    requires 0 <= off && off + 4 <= |s|
    ensures Get4(s, off) == Get4(s[off..off + 4], 0)
  {
  }

  /** Store `v` into `a` from index `off` on, as `UDP.set4`/`set8d` do. */
  method Put(a: array<byte>, off: int, v: seq<byte>)
    requires 0 <= off && off + |v| <= a.Length
    modifies a
    ensures a[..] == old(a[..off]) + v + old(a[off + |v|..])
  {
    var j := 0;
    while j < |v|
      invariant 0 <= j <= |v|
      invariant a[..] == old(a[..off]) + v[..j] + old(a[off + j..])
    {
      a[off + j] := v[j];
      j := j + 1;
    }
  }

  /** `System.arraycopy(src, srcPos, dst, dstPos, n)` between distinct arrays. */
  method ArrayCopy(src: array<byte>, srcPos: int, dst: array<byte>, dstPos: int, n: int)
    requires src != dst
    requires 0 <= srcPos && 0 <= dstPos && 0 <= n
    requires srcPos + n <= src.Length && dstPos + n <= dst.Length
    modifies dst
    ensures dst[..] == old(dst[..dstPos]) + src[srcPos..srcPos + n] + old(dst[dstPos + n..])
  {
    var j := 0;
    while j < n
      invariant 0 <= j <= n
      invariant dst[..] == old(dst[..dstPos]) + src[srcPos..srcPos + j] + old(dst[dstPos + j..])
    {
      dst[dstPos + j] := src[srcPos + j];
      j := j + 1;
    }
  }
}
