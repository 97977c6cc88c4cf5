/** Fixed-width unsigned integers of the Rust source and the bit-level
    operations it applies to them: shifts, masks and little-endian byte
    order. Every newtype below makes the verifier prove that an operation
    stays in range, the way Rust's debug build panics on overflow. */
module MachineInts {

  const TWO_8: int := 0x100
  const TWO_32: int := 0x1_0000_0000
  const TWO_64: int := 0x1_0000_0000_0000_0000
  const TWO_128: int := 0x1_0000_0000_0000_0000_0000_0000_0000_0000

  newtype u8 = x: int | 0 <= x < 0x100
  newtype u32 = x: int | 0 <= x < 0x1_0000_0000
  newtype u64 = x: int | 0 <= x < 0x1_0000_0000_0000_0000
  newtype u128 = x: int | 0 <= x < 0x1_0000_0000_0000_0000_0000_0000_0000_0000

  const U32_MAX: int := TWO_32 - 1

  /** 2^k. */
  function Pow2(k: nat): (r: nat)
    ensures r >= 1
  {
    if k == 0 then 1 else 2 * Pow2(k - 1)
  }

  lemma {:induction false} Pow2Add(a: nat, b: nat)
    ensures Pow2(a + b) == Pow2(a) * Pow2(b)
  {
    if b > 0 {
      Pow2Add(a, b - 1);
      assert Pow2(a + b) == 2 * Pow2(a + b - 1);
    }
  }

  lemma {:induction false} Pow2Monotone(a: nat, b: nat)
    requires a <= b
    ensures Pow2(a) <= Pow2(b)
  {
    if a < b {
      Pow2Monotone(a, b - 1);
    }
  }

  lemma Pow2Byte()
    ensures Pow2(8) == TWO_8
  {
  }

  lemma Pow2Words()
    ensures Pow2(32) == TWO_32 && Pow2(64) == TWO_64
  {
    Pow2Byte();
    Pow2Add(8, 8);
    assert Pow2(16) == 0x1_0000;
    Pow2Add(16, 16);
    assert Pow2(32) == TWO_32;
    Pow2Add(32, 32);
  }

  /** Rust's `x << s` on a u64: the shift amount must be below 64 (a larger
      one panics) and the bits shifted past position 63 are lost. */
  function Shl64(x: u64, s: nat): (r: u64)
    requires s < 64
    ensures r as int == (x as int * Pow2(s)) % TWO_64
  {
    ((x as int * Pow2(s)) % TWO_64) as u64
  }

  /** Rust's `x >> s` on a u64. */
  function Shr64(x: u64, s: nat): (r: u64)
    requires s < 64
    ensures r as int * Pow2(s) <= x as int < (r as int + 1) * Pow2(s)
  {
    var m := Pow2(s);
    DivBounds(x as int, m);
    var q := x as int / m;
    assert (q + 1) * m == q * m + m;
    q as u64
  }

  /** Integer division of a non-negative x by a positive m: the quotient
      lies in [0, x] and the remainder in [0, m). */
  lemma DivBounds(x: int, m: int)
    requires x >= 0 && m >= 1
    ensures 0 <= x / m <= x && 0 <= x % m < m
    ensures x == m * (x / m) + x % m
  {
    var q := x / m;
    MulNonZero(m, q);
    if q > 0 {
      MulMonotone(q, 1, m);
    }
  }

  /** A value below 2^32 shifted left by at most 32 places keeps all its
      bits in a u64, so `x << s` is then the exact product x * 2^s. */
  lemma {:induction false} Shl64NoWrap(x: u64, s: nat)
    requires x as int < TWO_32 && s <= 32
    ensures Shl64(x, s) as int == x as int * Pow2(s)
  {
    Pow2Monotone(s, 32);
    Pow2Words();
    Pow2Add(32, 32);
    assert x as int * Pow2(s) <= x as int * TWO_32 by {
      MulMonotone(x as int, Pow2(s), TWO_32);
    }
    assert x as int * TWO_32 < TWO_32 * TWO_32 by {
      MulStrict(x as int, TWO_32, TWO_32);
    }
  }

  lemma MulMonotone(a: nat, b: nat, c: nat)
    requires b <= c
    ensures a * b <= a * c
  {
  }

  lemma MulStrict(a: nat, b: nat, c: nat)
    requires a < c && b > 0
    ensures a * b < c * b
  {
  }

  /** Bitwise AND of two non-negative integers, bit by bit from the least
      significant end. */
  function BitAnd(a: nat, b: nat): nat
  {
    if a == 0 || b == 0 then 0
    else 2 * BitAnd(a / 2, b / 2) + (a % 2) * (b % 2)
  }

  lemma {:induction false} BitAndBound(a: nat, b: nat)
    ensures BitAnd(a, b) <= a
  {
    if a != 0 && b != 0 {
      BitAndBound(a / 2, b / 2);
    }
  }

  /** Masking with 2^k - 1 keeps exactly the k low bits: x & (2^k - 1) == x mod 2^k. */
  lemma {:induction false} BitAndLowMask(x: nat, k: nat)
    ensures BitAnd(x, Pow2(k) - 1) == x % Pow2(k)
  {
    if k == 0 {
    } else if x == 0 {
    } else {
      var h := Pow2(k - 1);
      var m := Pow2(k) - 1;
      assert m / 2 == h - 1 && m % 2 == 1 by {
        DivModUnique(m, 2, h - 1, 1);
      }
      assert BitAnd(x, m) == 2 * BitAnd(x / 2, m / 2) + (x % 2) * (m % 2);
      assert (x % 2) * (m % 2) == x % 2;
      BitAndLowMask(x / 2, k - 1);
      ModDouble(x, h);
    }
  }

  /** x mod 2d splits into the low bit of x and (x / 2) mod d. */
  lemma ModDouble(x: nat, d: nat)
    requires d > 0
    ensures x % (2 * d) == 2 * ((x / 2) % d) + x % 2
  {
    var q := (x / 2) / d;
    var r := (x / 2) % d;
    assert x / 2 == q * d + r;
    assert x == (2 * d) * q + (2 * r + x % 2);
    assert 0 <= 2 * r + x % 2 < 2 * d;
    DivModUnique(x, 2 * d, q, 2 * r + x % 2);
  }

  lemma DivModUnique(x: int, d: int, q: int, r: int)
    requires d > 0 && 0 <= r < d && x == d * q + r
    ensures x % d == r && x / d == q
  {
    var k := q - x / d;
    assert d * k == x % d - r;
    MulNonZero(d, k);
  }

  lemma MulNonZero(d: int, k: int)
    requires d > 0
    ensures k == 0 || d * k >= d || d * k <= -d
  {
    if k > 0 {
      assert d * k == d + d * (k - 1);
      MulMonotone(d, 0, k - 1);
    } else if k < 0 {
      assert d * k == -d - d * (-k - 1);
      MulMonotone(d, 0, -k - 1);
    }
  }

  /** The value of bytes read in little-endian order (least significant first). */
  function LeValue(s: seq<u8>): (r: nat)
    ensures r < Pow2(8 * |s|)
  {
    if s == [] then 0
    else
      var rest := LeValue(s[1..]);
      assert Pow2(8 * |s|) == TWO_8 * Pow2(8 * (|s| - 1)) by {
        Pow2Add(8, 8 * (|s| - 1));
        Pow2Byte();
      }
      s[0] as int + TWO_8 * rest
  }

  /** The w least significant bytes of v, least significant first. */
  function LeBytes(v: nat, w: nat): (r: seq<u8>)
    ensures |r| == w
  {
    if w == 0 then []
    else [(v % TWO_8) as u8] + LeBytes(v / TWO_8, w - 1)
  }

  /** Writing v to w bytes and reading them back yields v modulo 2^(8w). */
  lemma {:induction false} LeValueOfLeBytes(v: nat, w: nat)
    ensures LeValue(LeBytes(v, w)) == v % Pow2(8 * w)
  {
    if w == 0 {
    } else {
      var s := LeBytes(v, w);
      assert s[1..] == LeBytes(v / TWO_8, w - 1);
      LeValueOfLeBytes(v / TWO_8, w - 1);
      Pow2Add(8, 8 * (w - 1));
      Pow2Byte();
      assert Pow2(8 * w) == TWO_8 * Pow2(8 * (w - 1));
      ModMul(v, TWO_8, Pow2(8 * (w - 1)));
    }
  }

  /** x mod (a*b) == x mod a + a * ((x / a) mod b), and x / (a*b) == (x / a) / b. */
  lemma ModMul(x: nat, a: nat, b: nat)
    requires a > 0 && b > 0
    ensures x % (a * b) == x % a + a * ((x / a) % b)
    ensures x / (a * b) == (x / a) / b
  {
    var y := x / a;
    var q, s := y / b, y % b;
    DivBounds(x, a);
    DivBounds(y, b);
    var r := x % a + a * s;
    assert x == (a * b) * q + r by {
      MulDistrib(a, b * q, s);
      MulAssoc(a, b, q);
    }
    assert r < a * b by {
      MulDistrib(a, s, 1);
      MulMonotone(a, s + 1, b);
    }
    MulNonNegative(a, s);
    DivModUnique(x, a * b, q, r);
  }

  /** Doubling commutes with reduction modulo m. */
  lemma ModDoubleStep(y: nat, m: nat)
    requires m > 0
    ensures (2 * y) % m == (2 * (y % m)) % m
  {
    var q, r := y / m, y % m;
    DivBounds(y, m);
    var q2, t := (2 * r) / m, (2 * r) % m;
    DivBounds(2 * r, m);
    assert 2 * y == m * (2 * q + q2) + t by {
      MulDistrib(m, 2 * q, q2);
      MulAssoc(m, 2, q);
    }
    DivModUnique(2 * y, m, 2 * q + q2, t);
  }

  lemma MulDistrib(a: int, u: int, v: int)
    ensures a * (u + v) == a * u + a * v
  {
  }

  lemma MulAssoc(a: int, b: int, c: int)
    ensures a * (b * c) == (a * b) * c
  {
  }

  lemma MulNonNegative(a: nat, b: nat)
    ensures a * b >= 0
  {
    MulMonotone(a, 0, b);
  }

  /** Reading bytes and writing the value back to as many bytes gives the
      same bytes: little-endian reading loses nothing. */
  lemma {:induction false} LeBytesOfLeValue(s: seq<u8>)
    ensures LeBytes(LeValue(s), |s|) == s
  {
    if s != [] {
      var v := LeValue(s);
      assert v % TWO_8 == s[0] as int && v / TWO_8 == LeValue(s[1..]) by {
        DivModUnique(v, TWO_8, LeValue(s[1..]), s[0] as int);
      }
      LeBytesOfLeValue(s[1..]);
    }
  }
}
