/** Bytes, fixed-width little-endian numbers, and concatenation of byte strings. */
module Bytes {

  type byte = b: int | 0 <= b < 256
  type uint64 = x: int | 0 <= x < 0x1_0000_0000_0000_0000

  // std::numeric_limits<std::size_t>::max() on the 64-bit hosts the library is written for.
  const SIZE_MAX: nat := 0xFFFF_FFFF_FFFF_FFFF
  // std::numeric_limits<int>::max(); pbump and gbump take an int.
  const INT_MAX: nat := 0x7FFF_FFFF

  datatype Option<+T> = None | Some(value: T)

  function Min(a: nat, b: nat): nat { if a < b then a else b }

  function Max(a: nat, b: nat): nat { if a < b then b else a }

  /** static_cast<int> of a size: the low 32 bits, read as a signed number. */
  function NarrowToInt(n: nat): (r: int)
    ensures r <= n && -0x8000_0000 <= r <= INT_MAX
    ensures r == n <==> n <= INT_MAX
    ensures (n - r) % 0x1_0000_0000 == 0
  {
    var low := n % 0x1_0000_0000;
    if low <= INT_MAX then low else low - 0x1_0000_0000
  }

  // ----- fixed-width numbers -----

  function Pow256(width: nat): (p: nat)
    ensures p > 0
  {
    if width == 0 then 1 else 256 * Pow256(width - 1)
  }

  /** The object representation of an unsigned number in `width` bytes. Higher digits are cut off. */
  function LittleEndian(width: nat, v: nat): (s: seq<byte>)
    ensures |s| == width
  {
    if width == 0 then [] else [v % 256] + LittleEndian(width - 1, v / 256)
  }

  function FromLittleEndian(s: seq<byte>): nat {
    if s == [] then 0 else s[0] + 256 * FromLittleEndian(s[1..])
  }

  /** Byte i of the representation is digit i to the base 256, the lowest first. */
  lemma {:induction false} LittleEndianDigit(width: nat, v: nat, i: nat)
    requires i < width
    ensures LittleEndian(width, v)[i] == (v / Pow256(i)) % 256
    decreases i
  {
    if i > 0 {
      LittleEndianDigit(width - 1, v / 256, i - 1);
      DivideTwice(v, Pow256(i - 1));
    }
  }

  lemma {:induction false} DivideTwice(v: nat, p: nat)
    requires p > 0
    ensures (v / 256) / p == v / (256 * p)
  {
    var q := v / 256;
    var k, t := q / p, q % p;
    assert v == 256 * q + v % 256 && q == p * k + t;
    assert v == (256 * p) * k + (256 * t + v % 256) by {
      assert 256 * (p * k) == (256 * p) * k;
    }
    assert 256 * t + v % 256 < 256 * p;
    UniqueQuotient(v, 256 * p, k, 256 * t + v % 256);
  }

  lemma {:induction false} UniqueQuotient(v: nat, m: nat, k: nat, r: nat)
    requires m > 0 && r < m && v == m * k + r
    ensures v / m == k
  {
    var k' := v / m;
    assert v == m * k' + v % m;
    ProductStep(m, k', k);
    ProductStep(m, k, k');
  }

  /** Reading back a number yields what a cast to the width keeps of it. */
  lemma {:induction false} LittleEndianTruncates(width: nat, v: nat)
    ensures FromLittleEndian(LittleEndian(width, v)) == v % Pow256(width)
    decreases width
  {
    if width != 0 {
      var p := Pow256(width - 1);
      LittleEndianTruncates(width - 1, v / 256);
      assert LittleEndian(width, v)[1..] == LittleEndian(width - 1, v / 256);
      ModuloDigit(v, p);
    }
  }

  lemma {:induction false} ModuloDigit(v: nat, p: nat)
    requires p > 0
    ensures v % (256 * p) == v % 256 + 256 * ((v / 256) % p)
  {
    var q := v / 256;
    var r := v % 256 + 256 * (q % p);
    var k := q / p;
    assert v == 256 * q + v % 256;
    assert q == p * k + q % p;
    assert v == (256 * p) * k + r by {
      assert 256 * (p * k) == (256 * p) * k;
    }
    assert q % p <= p - 1;
    assert 0 <= r < 256 * p;
    UniqueRemainder(v, 256 * p, k, r);
  }

  lemma {:induction false} UniqueRemainder(v: nat, m: nat, k: nat, r: nat)
    requires m > 0 && r < m && v == m * k + r
    ensures v % m == r
  {
    var k' := v / m;
    assert v == m * k' + v % m;
    ProductStep(m, k', k);
    ProductStep(m, k, k');
  }

  lemma {:induction false} ProductStep(m: nat, a: nat, b: nat)
    ensures a < b ==> m * a + m <= m * b
    decreases b
  {
    if a < b {
      ProductStep(m, a, b - 1);
      assert m * b == m * (b - 1) + m;
    }
  }

  /** Every byte string is the representation of the number it reads as. */
  lemma {:induction false} LittleEndianOfRead(s: seq<byte>)
    ensures LittleEndian(|s|, FromLittleEndian(s)) == s
  {
    if s != [] {
      LittleEndianOfRead(s[1..]);
      assert FromLittleEndian(s) % 256 == s[0] && FromLittleEndian(s) / 256 == FromLittleEndian(s[1..]);
      assert [s[0]] + s[1..] == s;
    }
  }

  lemma LittleEndianRoundTrip(width: nat, v: nat)
    requires v < Pow256(width)
    ensures FromLittleEndian(LittleEndian(width, v)) == v
  {
    LittleEndianTruncates(width, v);
    SmallModulo(v, Pow256(width));
  }

  lemma SmallModulo(v: nat, m: nat)
    requires v < m
    ensures v % m == v
  {
  }

  lemma {:induction false} FromLittleEndianBound(s: seq<byte>)
    ensures FromLittleEndian(s) < Pow256(|s|)
  {
    if s != [] {
      FromLittleEndianBound(s[1..]);
    }
  }

  lemma EightBytes(width: nat)
    requires width == 8
    ensures Pow256(width) == 0x1_0000_0000_0000_0000
  {
    assert Pow256(1) == 256;
    assert Pow256(2) == 0x1_0000;
    assert Pow256(4) == 256 * (256 * Pow256(2)) == 0x1_0000_0000;
    assert Pow256(6) == 256 * (256 * Pow256(4));
    assert Pow256(8) == 256 * (256 * Pow256(6));
  }

  /** Two numbers that fit in eight bytes have the same representation only when they are equal. */
  lemma Le64RoundTrip(v: nat)
    requires v <= SIZE_MAX
    ensures FromLittleEndian(LittleEndian(8, v)) == v
  {
    EightBytes(8);
    LittleEndianRoundTrip(8, v);
  }

  // ----- concatenation -----

  function Flatten(parts: seq<seq<byte>>): seq<byte> {
    if parts == [] then [] else parts[0] + Flatten(parts[1..])
  }
}
