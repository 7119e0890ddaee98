/** Arithmetic shared by the hash-map models: powers of two, the floor
    logarithm the constructors compute, and the division facts behind
    shift-based bucket indexing. */
module MathUtil {

  datatype Option<T> = None | Some(value: T)

  /** The largest value of the signed 64-bit `long` */
  const LongMax: int := 0x7FFF_FFFF_FFFF_FFFF

  /** A hash value as the long-indexed tables consume it: a non-negative
      long (a negative one would give a negative index) */
  type Hash = h: int | 0 <= h <= LongMax

  /** 2^n */
  function Pow2(n: nat): (r: nat)
    ensures r >= 1
  {
    if n == 0 then 1 else 2 * Pow2(n - 1)
  }

  lemma {:induction false} Pow2Add(a: nat, b: nat)
    ensures Pow2(a + b) == Pow2(a) * Pow2(b)
  {
    if b > 0 {
      Pow2Add(a, b - 1);
      calc {
        Pow2(a + b);
        2 * Pow2(a + b - 1);
        2 * (Pow2(a) * Pow2(b - 1));
        Pow2(a) * (2 * Pow2(b - 1));
        Pow2(a) * Pow2(b);
      }
    }
  }

  lemma {:induction false} Pow2Monotone(a: nat, b: nat)
    requires a <= b
    ensures Pow2(a) <= Pow2(b)
  {
    if a < b {
      Pow2Monotone(a, b - 1);
    }
  }

  /** Powers of two are ordered like their exponents. */
  lemma Pow2Ordered(a: nat, b: nat)
    requires Pow2(a) <= Pow2(b)
    ensures a <= b
  {
    if a > b {
      Pow2Monotone(b + 1, a);
    }
  }

  lemma Pow2Of32()
    ensures Pow2(32) == 0x1_0000_0000
  {
    assert Pow2(2) == 4;
    assert Pow2(4) == 16 by { Pow2Add(2, 2); }
    assert Pow2(8) == 256 by { Pow2Add(4, 4); }
    assert Pow2(16) == 0x1_0000 by { Pow2Add(8, 8); }
    Pow2Add(16, 16);
  }

  /** A 32-bit value shifted right by 32 - n fits in n bits. */
  lemma ShiftBelow(h: nat, n: nat)
    requires h < 0x1_0000_0000 && n <= 32
    ensures h / Pow2(32 - n) < Pow2(n)
  {
    Pow2Add(32 - n, n);
    Pow2Of32();
    DivBelow(h, Pow2(32 - n), Pow2(n));
  }

  /** floor(log2(n)), the value `log2l` yields once it is stored in an integer */
  function Log2Floor(n: nat): (r: nat)
    requires n >= 1
    ensures Pow2(r) <= n < Pow2(r + 1)
  {
    if n == 1 then 0 else 1 + Log2Floor(n / 2)
  }

  predicate IsPow2(n: nat)
  {
    n >= 1 && Pow2(Log2Floor(n)) == n
  }

  lemma MulAtLeast(d: int, x: int)
    requires d > 0 && x >= 1
    ensures d * x >= d
  {
  }

  /** Division is determined by any quotient/remainder pair. */
  lemma DivModUnique(h: int, d: int, q: int, r: int)
    requires d > 0 && 0 <= r < d && h == d * q + r
    ensures h / d == q && h % d == r
  {
    var q', r' := h / d, h % d;
    assert h == d * q' + r';
    assert d * q - d * q' == r' - r;
    if q > q' {
      assert d * (q - q') == d * q - d * q';
      MulAtLeast(d, q - q');
    } else if q < q' {
      assert d * (q' - q) == d * q' - d * q;
      MulAtLeast(d, q' - q);
    }
  }

  /** A value below d * n, divided by d, is below n. */
  lemma DivBelow(h: nat, d: nat, n: nat)
    requires d > 0 && h < d * n
    ensures h / d < n
  {
  }

  lemma DivMonotone(a: nat, b: nat, d: nat)
    requires d > 0 && a <= b
    ensures a / d <= b / d
  {
    var qa, qb := a / d, b / d;
    assert a == d * qa + a % d && b == d * qb + b % d;
    if qa > qb {
      assert d * (qa - qb) == d * qa - d * qb;
      MulAtLeast(d, qa - qb);
    }
  }

  lemma MulDistributes(a: int, x: int, y: int)
    ensures a * (x + y) == a * x + a * y
  {
  }

  lemma MulAssociates(a: int, b: int, c: int)
    ensures a * (b * c) == (a * b) * c
  {
  }

  lemma MulLeft(a: nat, x: int, y: int)
    requires x <= y
    ensures a * x <= a * y
  {
    MulDistributes(a, x, y - x);
  }

  /** Dividing by a and then by b is dividing by a * b. */
  lemma DivDiv(h: nat, a: nat, b: nat)
    requires a > 0 && b > 0
    ensures h / a / b == h / (a * b)
  {
    var q1, r1 := h / a, h % a;
    var q2, r2 := q1 / b, q1 % b;
    assert h == a * q1 + r1;
    assert q1 == b * q2 + r2;
    MulDistributes(a, b * q2, r2);
    MulAssociates(a, b, q2);
    assert h == (a * b) * q2 + (a * r2 + r1);
    MulLeft(a, r2, b - 1);
    MulDistributes(a, b, -1);
    DivModUnique(h, a * b, q2, a * r2 + r1);
  }

  /** h >> n on a non-negative value */
  function ShiftRight(h: nat, n: nat): nat
  {
    if n == 0 then h else ShiftRight(h / 2, n - 1)
  }

  lemma {:induction false} ShiftRightDiv(h: nat, n: nat)
    ensures ShiftRight(h, n) == h / Pow2(n)
  {
    if n > 0 {
      ShiftRightDiv(h / 2, n - 1);
      DivDiv(h, 2, Pow2(n - 1));
    }
  }

  /** 2^n - 1, seen as a bit mask, keeps the remainder modulo 2^n. */
  function LowBits(h: nat, n: nat): (r: nat)
    ensures r < Pow2(n)
  {
    h % Pow2(n)
  }
}
