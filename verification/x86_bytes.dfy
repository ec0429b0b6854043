/**
 * Bytes, machine-word wrap-around and little-endian integers, as used by the
 * x86 encoder.  Integers are unbounded here, so every truncation the machine
 * performs is written out.
 */
module Bytes {

  type byte = x: int | 0 <= x < 256

  /** 256 to the power n: the number of values an n-byte field can hold. */
  function Pow256(n: nat): (r: int)
    ensures r >= 1
  {
    if n == 0 then 1 else 256 * Pow256(n - 1)
  }

  lemma Pow256Values()
    ensures Pow256(1) == 0x100
    ensures Pow256(2) == 0x1_0000
    ensures Pow256(4) == 0x1_0000_0000
    ensures Pow256(8) == 0x1_0000_0000_0000_0000
  {
  }

  const TWO_32: int := 0x1_0000_0000
  const TWO_64: int := 0x1_0000_0000_0000_0000

  /** Signed-range tests: does v fit in a sign-extended field of that width? */
  predicate Fits8(v: int) { -0x80 <= v < 0x80 }
  predicate Fits32(v: int) { -0x8000_0000 <= v < 0x8000_0000 }
  predicate Fits64(v: int) { -0x8000_0000_0000_0000 <= v < 0x8000_0000_0000_0000 }

  /** A 16-bit immediate slot accepts the signed and the unsigned reading. */
  predicate Fits16Bits(v: int) { -0x8000 <= v < 0x1_0000 }

  /** A 64-bit immediate slot accepts the signed and the unsigned reading. */
  predicate Fits64Bits(v: int) { -0x8000_0000_0000_0000 <= v < TWO_64 }

  /** The machine integer with the same low 32 bits as v (RPython's intmask on a 32-bit host). */
  function Wrap32(v: int): (r: int)
    ensures Fits32(r)
    ensures (r - v) % TWO_32 == 0
  {
    var u := v % TWO_32;
    if u >= 0x8000_0000 then u - TWO_32 else u
  }

  /** The machine integer with the same low 64 bits as v (intmask on a 64-bit host). */
  function Wrap64(v: int): (r: int)
    ensures Fits64(r)
    ensures (r - v) % TWO_64 == 0
  {
    var u := v % TWO_64;
    if u >= 0x8000_0000_0000_0000 then u - TWO_64 else u
  }

  /** The n low-order bytes of v, least significant first (two's complement for negative v). */
  function LE(v: int, n: nat): (r: seq<byte>)
    ensures |r| == n
    decreases n
  {
    if n == 0 then [] else [v % 256] + LE(v / 256, n - 1)
  }

  /** The unsigned value of a little-endian byte string. */
  function FromLE(s: seq<byte>): (r: nat)
    ensures r < Pow256(|s|)
  {
    if |s| == 0 then 0 else s[0] + 256 * FromLE(s[1..])
  }

  /** The two's-complement reading of an n-byte unsigned value. */
  function Signed(u: int, n: nat): int
  {
    if 2 * u >= Pow256(n) then u - Pow256(n) else u
  }

  lemma {:induction false} MulAtLeast(k: int, d: int)
    requires k >= 1 && d > 0
    ensures k * d >= d
    decreases k
  {
    if k > 1 {
      MulAtLeast(k - 1, d);
      assert k * d == (k - 1) * d + d;
    }
  }

  /** Euclidean division is unique: any decomposition with 0 <= r < d is the one / and % give. */
  lemma ModUnique(a: int, d: int, q: int, r: int)
    requires d > 0 && 0 <= r < d && a == q * d + r
    ensures a % d == r && a / d == q
  {
    var q0 := a / d;
    var r0 := a % d;
    assert a == q0 * d + r0;
    assert (q - q0) * d == r0 - r;
    if q > q0 {
      MulAtLeast(q - q0, d);
    } else if q < q0 {
      MulAtLeast(q0 - q, d);
    }
  }

  /** Splitting off the lowest byte of a value reduced modulo 256 * m. */
  lemma ModSplit(a: int, m: int)
    requires m > 0
    ensures a % 256 + 256 * ((a / 256) % m) == a % (256 * m)
  {
    var q := a / 256;
    var r := a % 256;
    var q2 := q / m;
    var r2 := q % m;
    assert q == q2 * m + r2;
    assert a == q2 * (256 * m) + (256 * r2 + r);
    ModUnique(a, 256 * m, q2, 256 * r2 + r);
  }

  /** Reading back what LE wrote yields v reduced modulo the field size. */
  lemma {:induction false} FromLEOfLE(v: int, n: nat)
    ensures FromLE(LE(v, n)) == v % Pow256(n)
    decreases n
  {
    if n == 0 {
    } else {
      var s := LE(v, n);
      assert s[1..] == LE(v / 256, n - 1);
      FromLEOfLE(v / 256, n - 1);
      ModSplit(v, Pow256(n - 1));
    }
  }

  /** LE only depends on v modulo the field size. */
  lemma LECongruent(v: int, w: int, n: nat)
    requires (v - w) % Pow256(n) == 0
    ensures LE(v, n) == LE(w, n)
  {
    var p := Pow256(n);
    var k := (v - w) / p;
    assert v - w == k * p;
    assert w == (v / p - k) * p + v % p;
    ModUnique(w, p, v / p - k, v % p);
    FromLEOfLE(v, n);
    FromLEOfLE(w, n);
    LEInjective(LE(v, n), LE(w, n));
  }

  lemma {:induction false} LEInjective(s: seq<byte>, t: seq<byte>)
    requires |s| == |t| && FromLE(s) == FromLE(t)
    ensures s == t
  {
    if |s| > 0 {
      assert s[0] == FromLE(s) % 256 by { ModUnique(FromLE(s), 256, FromLE(s[1..]), s[0]); }
      assert t[0] == FromLE(t) % 256 by { ModUnique(FromLE(t), 256, FromLE(t[1..]), t[0]); }
      LEInjective(s[1..], t[1..]);
      assert s == [s[0]] + s[1..];
      assert t == [t[0]] + t[1..];
    }
  }

  /** A value in the signed range of an n-byte field survives LE and back. */
  lemma SignedRoundTrip(v: int, n: nat)
    requires -Pow256(n) <= 2 * v < Pow256(n)
    ensures Signed(FromLE(LE(v, n)), n) == v
  {
    FromLEOfLE(v, n);
    if v >= 0 {
      ModUnique(v, Pow256(n), 0, v);
    } else {
      ModUnique(v, Pow256(n), -1, v + Pow256(n));
    }
  }
}
