/** Machine-level conversions the detector relies on, written over unbounded
    integers and reals: unsigned and signed bytes, little-endian 32-bit
    integers, the truncating float-to-int cast, and powers. */
module Numeric {

  /** An unsigned 8-bit value (Rust `u8`). */
  type Byte = b: int | 0 <= b < 256

  const TwoTo32: int := 0x1_0000_0000
  const I32Limit: int := 0x8000_0000

  predicate IsI32(v: int) {
    -I32Limit <= v < I32Limit
  }

  /** The byte reinterpreted as a two's-complement `i8` (`b as i8`). */
  function AsI8(b: Byte): (v: int)
    ensures -128 <= v < 128
    ensures v % 256 == b
  {
    if b < 128 then b else b - 256
  }

  /** The unsigned 32-bit value of four bytes, least significant first. */
  function WordLE(b0: Byte, b1: Byte, b2: Byte, b3: Byte): (u: int)
    ensures 0 <= u < TwoTo32
  {
    b0 + 0x100 * b1 + 0x1_0000 * b2 + 0x100_0000 * b3
  }

  /** `read_i32::<LittleEndian>` on a four-byte slice. */
  function DecodeI32LE(s: seq<Byte>): (v: int)
    requires |s| == 4
    ensures IsI32(v)
    ensures v % TwoTo32 == WordLE(s[0], s[1], s[2], s[3])
  {
    var u := WordLE(s[0], s[1], s[2], s[3]);
    if u < I32Limit then u else u - TwoTo32
  }

  /** The four little-endian bytes of a 32-bit signed integer. */
  function EncodeI32LE(v: int): (s: seq<Byte>)
    requires IsI32(v)
    ensures |s| == 4
  {
    var u := v % TwoTo32;
    var q1 := u / 0x100;
    var q2 := q1 / 0x100;
    var q3 := q2 / 0x100;
    [u % 0x100, q1 % 0x100, q2 % 0x100, q3]
  }

  lemma DecodeEncodeI32(v: int)
    requires IsI32(v)
    ensures DecodeI32LE(EncodeI32LE(v)) == v
  {
    var u := v % TwoTo32;
    assert u == if v >= 0 then v else v + TwoTo32;
    var q1 := u / 0x100;
    var q2 := q1 / 0x100;
    var q3 := q2 / 0x100;
    assert u == q1 * 0x100 + u % 0x100;
    assert q1 == q2 * 0x100 + q1 % 0x100;
    assert q2 == q3 * 0x100 + q2 % 0x100;
    var s := EncodeI32LE(v);
    assert s == [u % 0x100, q1 % 0x100, q2 % 0x100, q3];
    assert WordLE(s[0], s[1], s[2], s[3]) == u;
  }

  lemma EncodeDecodeI32(s: seq<Byte>)
    requires |s| == 4
    ensures EncodeI32LE(DecodeI32LE(s)) == s
  {
    var u := WordLE(s[0], s[1], s[2], s[3]);
    var v := DecodeI32LE(s);
    assert v % TwoTo32 == u;
    var q1: int := s[1] as int + 0x100 * (s[2] as int) + 0x1_0000 * (s[3] as int);
    var q2: int := s[2] as int + 0x100 * (s[3] as int);
    assert u == s[0] + 0x100 * q1;
    assert q1 == s[1] + 0x100 * q2;
    assert u / 0x100 == q1 && u % 0x100 == s[0];
    assert q1 / 0x100 == q2 && q1 % 0x100 == s[1];
    assert q2 / 0x100 == s[3] && q2 % 0x100 == s[2];
    var e := EncodeI32LE(v);
    assert e == [s[0], s[1], s[2], s[3]];
  }

  /** Truncation toward zero, the semantics of a float-to-int `as` cast. */
  function Trunc(x: real): (n: int)
    ensures 0.0 <= x ==> 0 <= n && n as real <= x < n as real + 1.0
    ensures x < 0.0 ==> n <= 0 && n as real - 1.0 < x <= n as real
  {
    if x >= 0.0 then x.Floor else -((-x).Floor)
  }

  /** Number of iterations of `for _ in 0..n` over a signed `n`. */
  function Iterations(n: int): nat {
    if n > 0 then n else 0
  }

  function Max(a: real, b: real): real {
    if a >= b then a else b
  }

  function Pow2(n: nat): (p: int)
    ensures p >= 1
  {
    if n == 0 then 1 else 2 * Pow2(n - 1)
  }

  function Pow(x: real, k: nat): real {
    if k == 0 then 1.0 else x * Pow(x, k - 1)
  }

  /** The product `a * n`, as `n` repeated additions of `a` (subtractions
      for negative `n`). Buffer offsets and sizes are written with it, so
      that a proof unfolds one addition at a time and meets a genuine
      product only where it asks `TimesIsProduct` for one. */
  function Times(a: int, n: int): int
    decreases if n >= 0 then n else -n
  {
    if n == 0 then 0
    else if n > 0 then Times(a, n - 1) + a
    else Times(a, n + 1) - a
  }

  lemma {:induction false} TimesIsProduct(a: int, n: int)
    ensures Times(a, n) == a * n
    decreases if n >= 0 then n else -n
  {
    if n > 0 {
      TimesIsProduct(a, n - 1);
      assert a * (n - 1) + a == a * n;
    } else if n < 0 {
      TimesIsProduct(a, n + 1);
      assert a * (n + 1) - a == a * n;
    }
  }

  /** One more addition. */
  lemma TimesStep(a: int, n: int)
    requires n >= 0
    ensures Times(a, n + 1) == Times(a, n) + a
  {
  }

  /** Repeated addition of a non-negative amount stays non-negative. */
  lemma {:induction false} TimesNonneg(a: int, n: int)
    requires a >= 0 && n >= 0
    ensures Times(a, n) >= 0
    decreases n
  {
    if n > 0 {
      TimesNonneg(a, n - 1);
    }
  }

  /** More additions of a non-negative amount give no less. */
  lemma {:induction false} TimesMonotone(a: int, m: int, n: int)
    requires a >= 0 && 0 <= m <= n
    ensures Times(a, m) <= Times(a, n)
    decreases n
  {
    if m < n {
      TimesMonotone(a, m, n - 1);
    }
  }

  /** The real product `n * x` for an integer count `n`, as repeated
      addition, for the same reason as `Times`. */
  function TimesReal(x: real, n: int): real
    decreases if n >= 0 then n else -n
  {
    if n == 0 then 0.0
    else if n > 0 then TimesReal(x, n - 1) + x
    else TimesReal(x, n + 1) - x
  }

  lemma {:induction false} TimesRealIsProduct(x: real, n: int)
    ensures TimesReal(x, n) == (n as real) * x
    decreases if n >= 0 then n else -n
  {
    if n > 0 {
      TimesRealIsProduct(x, n - 1);
      assert ((n - 1) as real) * x + x == (n as real) * x;
    } else if n < 0 {
      TimesRealIsProduct(x, n + 1);
      assert ((n + 1) as real) * x - x == (n as real) * x;
    }
  }

  /** Scaling both sides of an integer inequality by a non-negative factor. */
  lemma MulLe(a: int, b: int, c: int)
    requires a >= 0
    requires b <= c
    ensures a * b <= a * c
  {
    assert a * c - a * b == a * (c - b);
  }

  /** Adding the divisor leaves the remainder unchanged. */
  lemma ModShift(a: int, step: int)
    requires step >= 1
    ensures (a + step) % step == a % step
  {
    var q, m := a / step, a % step;
    var q', m' := (a + step) / step, (a + step) % step;
    var d := q + 1 - q';
    assert d * step == m' - m by {
      assert a + step == q' * step + m';
      assert a + step == q * step + m + step;
      assert d * step == q * step + step - q' * step;
    }
    if d >= 1 {
      MulLe(step, 1, d);
    } else if d <= -1 {
      MulLe(step, d, -1);
    }
  }

  /** Scaling both sides of an inequality by a non-negative factor. */
  lemma MulMonotone(a: real, b: real, c: real)
    requires a >= 0.0
    requires b >= c
    ensures a * b >= a * c
  {
  }

  /** Scaling both sides of a strict inequality by a positive factor. */
  lemma MulStrict(a: real, b: real, c: real)
    requires a > 0.0
    requires b > c
    ensures a * b > a * c
  {
    assert a * b - a * c == a * (b - c);
  }

  /** Dividing both sides of `a * d <= y` by a positive `d`. */
  lemma DivBound(a: real, d: real, y: real)
    requires d > 0.0 && a * d <= y
    ensures a <= y / d
  {
    var q := y / d;
    assert q * d == y;
    assert (a - q) * d <= 0.0;
  }

  /** Bernoulli's inequality: repeated growth by `x` is at least linear. */
  lemma {:induction false} Bernoulli(x: real, k: nat)
    requires x >= 1.0
    ensures Pow(x, k) >= 1.0 + (k as real) * (x - 1.0)
  {
    if k > 0 {
      Bernoulli(x, k - 1);
      var p := Pow(x, k - 1);
      var kk := (k - 1) as real;
      var d := x - 1.0;
      MulMonotone(x, p, 1.0 + kk * d);
      assert x * (1.0 + kk * d) == 1.0 + (kk + 1.0) * d + kk * d * d;
      MulMonotone(kk * d, d, 0.0);
      assert Pow(x, k) == x * p;
    }
  }

  /** Growth by `x > 1` is strictly increasing. */
  lemma {:induction false} PowMonotone(x: real, j: nat, k: nat)
    requires x > 1.0
    requires j < k
    ensures 0.0 < Pow(x, j) < Pow(x, k)
  {
    PowPositive(x, k - 1);
    var p := Pow(x, k - 1);
    assert Pow(x, k) == x * p;
    assert x * p - p == (x - 1.0) * p;
    MulMonotone(p, x - 1.0, 0.0);
    assert (x - 1.0) * p > 0.0 by {
      assert p * (x - 1.0) == (x - 1.0) * p;
      if (x - 1.0) * p <= 0.0 {
        MulMonotone(p, 0.0, x - 1.0);
        assert false;
      }
    }
    if k > j + 1 {
      PowMonotone(x, j, k - 1);
    }
  }

  /** Powers of a factor in `[-1, 1]` stay in `[-1, 1]`. */
  lemma {:induction false} PowUnitInterval(x: real, k: nat)
    requires -1.0 <= x <= 1.0
    ensures -1.0 <= Pow(x, k) <= 1.0
  {
    if k > 0 {
      PowUnitInterval(x, k - 1);
      var p := Pow(x, k - 1);
      assert Pow(x, k) == x * p;
      var a := if x >= 0.0 then x else -x;
      MulMonotone(a, 1.0, p);
      MulMonotone(a, p, -1.0);
      assert -a <= a * p <= a <= 1.0;
      assert x * p == a * p || x * p == -(a * p);
    }
  }

  lemma {:induction false} PowPositive(x: real, k: nat)
    requires x > 0.0
    ensures Pow(x, k) > 0.0
  {
    if k > 0 {
      PowPositive(x, k - 1);
    }
  }
}
