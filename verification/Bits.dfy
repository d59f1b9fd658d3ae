/** Octets, and what shifts and masks make of them, as numbers. */
module Bits {
  type octet = bv8

  lemma IsByte(a: octet)
    ensures 0 <= a as int < 256
  {
  }

  lemma BelowSixtyFour(i: octet)
    ensures i < 64 <==> (i as int) < 64
  {
  }

  lemma SextetNumber(v: octet)
    requires v < 64
    ensures 0 <= v as int < 64
  {
  }

  lemma LowestTwo(a: octet)
    ensures ((a & 3) << 4) as int == a as int % 4 * 16
    ensures ((a & 3) << 4) & 15 == 0 && (a & 3) << 4 < 64
  {
  }

  lemma LowestFour(w: octet)
    ensures (w << 4) as int == w as int % 16 * 16 && (w << 4) & 15 == 0
  {
  }

  lemma HighestFour(b: octet)
    ensures (b >> 4) as int == b as int / 16 && b >> 4 < 16
  {
  }

  lemma HighPart(b: octet)
    ensures ((b & 15) << 2) as int == b as int % 16 * 4
    ensures ((b & 15) << 2) & 3 == 0 && (b & 15) << 2 < 64
  {
  }

  lemma LowPart(c: octet)
    ensures (c >> 6) as int == c as int / 64 && c >> 6 < 4
  {
  }

  lemma Highest(x: octet)
    requires x < 64
    ensures (x >> 2) as int == x as int / 4 && x >> 2 < 16
  {
  }

  lemma Shift2(v: octet)
    requires v < 64
    ensures (v << 2) as int == 4 * (v as int) && (v << 2) & 3 == 0
  {
  }

  lemma Shift6(x: octet)
    ensures (x << 6) as int == x as int % 4 * 64 && (x << 6) & 63 == 0
  {
  }

  lemma DisjointPairs(x: octet, y: octet)
    requires x & 3 == 0 && y < 4
    ensures (x | y) as int == x as int + y as int
  {
  }

  lemma DisjointSextets(x: octet, y: octet)
    requires x & 63 == 0 && y < 64
    ensures (x | y) as int == x as int + y as int
  {
  }

  lemma DisjointNibbles(x: octet, y: octet)
    requires x & 15 == 0 && y < 16
    ensures (x | y) as int == x as int + y as int
  {
  }

  // ---------- Three octets, four sextets ----------

  lemma Quotient(x: int, d: int, q: int, r: int)
    requires x == q * d + r && 0 <= r < d
    ensures x / d == q && x % d == r
  {
    var k := x / d - q;
    assert k * d == r - x % d;
    Outside(k, d);
  }

  lemma Outside(k: int, d: int)
    requires d > 0
    ensures k >= 1 ==> k * d >= d
    ensures k <= -1 ==> k * d <= -d
  {
  }

  /** The `j`-th of the four sextets of three octets, taken as one number. */
  function SextetOf(a: int, b: int, c: int, j: nat): int {
    var g := 65536 * a + 256 * b + c;
    if j == 0 then g / 262144 else if j == 1 then g / 4096 % 64 else if j == 2 then g / 64 % 64 else g % 64
  }

  lemma Sextets(a: int, b: int, c: int)
    requires 0 <= a < 256 && 0 <= b < 256 && 0 <= c < 256
    ensures SextetOf(a, b, c, 0) == a / 4
    ensures SextetOf(a, b, c, 1) == a % 4 * 16 + b / 16
    ensures SextetOf(a, b, c, 2) == b % 16 * 4 + c / 64
    ensures SextetOf(a, b, c, 3) == c % 64
  {
    var g := 65536 * a + 256 * b + c;
    Quotient(g, 262144, a / 4, 65536 * (a % 4) + 256 * b + c);
    Quotient(g, 4096, 16 * a + b / 16, 256 * (b % 16) + c);
    Quotient(16 * a + b / 16, 64, a / 4, a % 4 * 16 + b / 16);
    Quotient(g, 64, 1024 * a + 4 * b + c / 64, c % 64);
    Quotient(1024 * a + 4 * b + c / 64, 64, 16 * a + b / 16, b % 16 * 4 + c / 64);
  }

  /** The `j`-th of the three octets of four sextets, taken as one number. */
  function OctetOf(v: int, w: int, x: int, y: int, j: nat): int {
    var g := 262144 * v + 4096 * w + 64 * x + y;
    if j == 0 then g / 65536 else if j == 1 then g / 256 % 256 else g % 256
  }

  lemma GroupOctets(v: int, w: int, x: int, y: int)
    requires 0 <= v < 64 && 0 <= w < 64 && 0 <= x < 64 && 0 <= y < 64
    ensures OctetOf(v, w, x, y, 0) == 4 * v + w / 16
    ensures OctetOf(v, w, x, y, 1) == w % 16 * 16 + x / 4
    ensures OctetOf(v, w, x, y, 2) == x % 4 * 64 + y
  {
    var g := 262144 * v + 4096 * w + 64 * x + y;
    Quotient(g, 65536, 4 * v + w / 16, 4096 * (w % 16) + 64 * x + y);
    Quotient(g, 256, 1024 * v + 16 * w + x / 4, x % 4 * 64 + y);
    Quotient(1024 * v + 16 * w + x / 4, 256, 4 * v + w / 16, w % 16 * 16 + x / 4);
  }
}
