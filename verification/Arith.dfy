/** Powers and the few non-linear facts every digit-level proof leans on. */
module Arith {

  function Max(a: int, b: int): int { if a > b then a else b }

  function Min(a: int, b: int): int { if a > b then b else a }

  function Abs(a: int): nat { if a < 0 then -a else a }

  /** b to the power n. */
  function Pow(b: int, n: nat): int
  {
    if n == 0 then 1 else b * Pow(b, n - 1)
  }

  /** 10 to the power n: the weight of a decimal digit with n digits to its right. */
  function P(n: nat): (p: nat)
    ensures p >= 1
  {
    if n == 0 then 1 else 10 * P(n - 1)
  }

  lemma {:induction false} PAdd(a: nat, b: nat)
    ensures P(a + b) == P(a) * P(b)
  {
    if a == 0 {
    } else {
      PAdd(a - 1, b);
      MulAssoc(10, P(a - 1), P(b));
    }
  }

  lemma {:induction false} PMono(a: nat, b: nat)
    requires a <= b
    ensures P(a) <= P(b)
  {
    if a < b {
      PMono(a, b - 1);
    }
  }

  lemma PMonoStrict(a: nat, b: nat)
    requires a < b
    ensures 10 * P(a) <= P(b)
  {
    PMono(a + 1, b);
  }

  lemma {:induction false} PIsPow(n: nat)
    ensures P(n) == Pow(10, n)
  {
    if n > 0 {
      PIsPow(n - 1);
    }
  }

  lemma {:induction false} PowPositive(b: int, n: nat)
    requires b >= 1
    ensures Pow(b, n) >= 1
  {
    if n > 0 {
      PowPositive(b, n - 1);
      MulMono(1, b, 1, Pow(b, n - 1));
    }
  }

  lemma {:induction false} PowAdd(b: int, m: nat, n: nat)
    ensures Pow(b, m + n) == Pow(b, m) * Pow(b, n)
  {
    if m == 0 {
    } else {
      PowAdd(b, m - 1, n);
      MulAssoc(b, Pow(b, m - 1), Pow(b, n));
    }
  }

  lemma MulAssoc(a: int, b: int, c: int)
    ensures a * (b * c) == (a * b) * c
  {
  }

  lemma MulDist(a: int, b: int, c: int)
    ensures a * (b + c) == a * b + a * c
    ensures (b + c) * a == b * a + c * a
  {
  }

  lemma MulMono(a: int, b: int, c: int, d: int)
    requires 0 <= a <= b && 0 <= c <= d
    ensures a * c <= b * d
  {
    assert a * c <= b * c;
    assert b * c <= b * d;
  }

  lemma MulLe(a: int, b: int, c: nat)
    requires a <= b
    ensures a * c <= b * c
  {
  }

  lemma MulBound(x: int, y: int, p: int, q: int)
    requires 0 <= x < p && 0 <= y < q
    ensures 0 <= x * y < p * q
  {
    MulMono(0, x, 0, y);
    MulMono(x, p - 1, y, q - 1);
    assert (p - 1) * (q - 1) == p * q - p - q + 1;
  }

  /** What is carried past the weight p of a number below p is nothing. */
  lemma NoCarry(v: int, c: int, p: nat, w: int)
    requires v + c * p == w && 0 <= v && 0 <= c && w < p
    ensures c == 0
  {
    if c >= 1 {
      MulLe(1, c, p);
    }
  }

  lemma MulCancelLt(a: int, b: int, c: nat)
    requires a * c < b * c
    ensures a < b
  {
    if a >= b {
      MulLe(b, a, c);
    }
  }

  /** The quotient is the only number that brackets the dividend. */
  lemma DivUnique(x: int, d: int, q: int)
    requires d > 0 && q * d <= x < q * d + d
    ensures x / d == q
  {
    var e := x / d;
    assert x == d * e + x % d;
    MulDist(d, e, 1);
    MulDist(d, q, 1);
    MulCancelLt(q, e + 1, d);
    MulCancelLt(e, q + 1, d);
  }

  lemma DivBracket(x: int, d: int)
    requires d > 0
    ensures (x / d) * d <= x < (x / d) * d + d
  {
    assert x == d * (x / d) + x % d;
  }

  /** Dividing twice is dividing by the product. */
  lemma DivDiv(x: int, a: int, b: int)
    requires a > 0 && b > 0
    ensures a * b > 0
    ensures (x / a) / b == x / (a * b)
  {
    assert a * b > 0 by { MulMono(1, a, 1, b); }
    var q := (x / a) / b;
    DivBracket(x, a);
    DivBracket(x / a, b);
    calc {
      q * (a * b);
      { MulAssoc(q, b, a); }
      (q * b) * a;
    <= { MulLe(q * b, x / a, a); }
      (x / a) * a;
    <=
      x;
    }
    calc {
      x;
    <
      (x / a) * a + a;
      { MulDist(a, x / a, 1); }
      (x / a + 1) * a;
    <= { MulLe(x / a + 1, q * b + b, a); }
      (q * b + b) * a;
      { MulDist(a, q * b, b); MulAssoc(q, b, a); }
      q * (a * b) + a * b;
    }
    DivUnique(x, a * b, q);
  }

  /** A common factor cancels in a quotient. */
  lemma DivScale(x: int, d: int, k: int)
    requires d > 0 && k > 0
    ensures d * k > 0
    ensures (x * k) / (d * k) == x / d
  {
    assert d * k > 0 by { MulMono(1, d, 1, k); }
    var q := x / d;
    DivBracket(x, d);
    MulLe(q * d, x, k);
    MulAssoc(q, d, k);
    MulLe(x + 1, q * d + d, k);
    MulDist(k, x, 1);
    MulDist(k, q * d, d);
    DivUnique(x * k, d * k, q);
  }

  /** Quotient truncated toward zero, as the C library and bc define division. */
  function TruncDiv(x: int, d: int): int
    requires d != 0
  {
    if (x < 0) == (d < 0) then Abs(x) / Abs(d) else -(Abs(x) / Abs(d))
  }

  /** The remainder that goes with it. */
  function TruncRem(x: int, d: int): int
    requires d != 0
  {
    x - TruncDiv(x, d) * d
  }

  /** x is zero or has the sign of y. */
  predicate WeakSign(x: int, y: int) {
    (x > 0 ==> y > 0) && (x < 0 ==> y < 0)
  }

  /** A truncated remainder is smaller than the divisor and never of the wrong sign. */
  lemma TruncRemBound(x: int, d: int)
    requires d != 0
    ensures Abs(TruncRem(x, d)) < Abs(d) && WeakSign(TruncRem(x, d), x)
  {
    hide TruncDiv;
    var q := Abs(x) / Abs(d);
    var w := q * Abs(d);
    DivBracket(Abs(x), Abs(d));
    QuotientTimes(x, d, q);
    assert w <= Abs(x) < w + Abs(d);
    assert TruncRem(x, d) == if x < 0 then x + w else x - w;
  }

  lemma QuotientTimes(x: int, d: int, q: int)
    requires d != 0 && q == Abs(x) / Abs(d)
    ensures TruncDiv(x, d) * d == if x < 0 then -(q * Abs(d)) else q * Abs(d)
  {
    NegProducts(q, d);
  }

  lemma NegProducts(x: int, y: int)
    ensures (-x) * y == -(x * y) && x * (-y) == -(x * y) && (-x) * (-y) == x * y
  {
  }

  /** x and y differ by a multiple of m. */
  ghost predicate Cong(x: int, y: int, m: int) {
    exists k :: x - y == k * m
  }

  lemma CongIntro(x: int, y: int, m: int, k: int)
    requires x - y == k * m
    ensures Cong(x, y, m)
  {
  }

  lemma CongTrans(x: int, y: int, z: int, m: int)
    requires Cong(x, y, m) && Cong(y, z, m)
    ensures Cong(x, z, m)
  {
    var j :| x - y == j * m;
    var k :| y - z == k * m;
    MulDist(m, j, k);
    CongIntro(x, z, m, j + k);
  }

  lemma CongMul(x: int, y: int, t: int, m: int)
    requires Cong(x, y, m)
    ensures Cong(x * t, y * t, m) && Cong(t * x, t * y, m)
  {
    var k :| x - y == k * m;
    MulDist(t, x, -y);
    assert x * t - y * t == (x - y) * t == k * m * t == k * t * m;
    CongIntro(x * t, y * t, m, k * t);
    CongIntro(t * x, t * y, m, k * t);
  }

  lemma {:induction false} CongPow(x: int, y: int, n: nat, m: int)
    requires Cong(x, y, m)
    ensures Cong(Pow(x, n), Pow(y, n), m)
  {
    if n == 0 {
      CongIntro(1, 1, m, 0);
    } else {
      CongPow(x, y, n - 1, m);
      CongMul(Pow(x, n - 1), Pow(y, n - 1), x, m);
      CongMul(x, y, Pow(y, n - 1), m);
      CongTrans(x * Pow(x, n - 1), x * Pow(y, n - 1), y * Pow(y, n - 1), m);
    }
  }

  lemma CongRem(x: int, m: int)
    requires m != 0
    ensures Cong(TruncRem(x, m), x, m)
  {
    CongIntro(TruncRem(x, m), x, m, -TruncDiv(x, m));
  }

  /** The truncated remainder is the only number of its size and sign in its class. */
  lemma TruncRemUnique(x: int, y: int, m: int)
    requires m != 0 && Cong(x, y, m) && Abs(x) < Abs(m) && WeakSign(x, y)
    ensures x == TruncRem(y, m)
  {
    var r := TruncRem(y, m);
    TruncRemBound(y, m);
    var k :| x - y == k * m;
    var j := k + TruncDiv(y, m);
    MulDist(m, k, TruncDiv(y, m));
    assert x - r == j * m;
    SmallMultiple(j, m);
  }

  lemma SmallMultiple(j: int, m: int)
    requires Abs(j * m) < Abs(m)
    ensures j == 0
  {
    if j >= 1 {
      MulMono(1, j, Abs(m), Abs(m));
    } else if j <= -1 {
      MulMono(1, -j, Abs(m), Abs(m));
    }
  }

  lemma WeakSignMul(x: int, y: int, t: int)
    requires WeakSign(x, y)
    ensures WeakSign(x * t, y * t) && WeakSign(t * x, t * y)
  {
    ProductSign(x, t);
    ProductSign(y, t);
  }

  lemma ProductSign(x: int, t: int)
    ensures x * t > 0 <==> (x > 0 && t > 0) || (x < 0 && t < 0)
    ensures x * t < 0 <==> (x > 0 && t < 0) || (x < 0 && t > 0)
  {
  }

  lemma WeakSignTrans(x: int, y: int, z: int)
    requires WeakSign(x, y) && WeakSign(y, z)
    ensures WeakSign(x, z)
  {
  }

  lemma {:induction false} WeakSignPow(x: int, y: int, n: nat)
    requires WeakSign(x, y)
    ensures WeakSign(Pow(x, n), Pow(y, n))
  {
    if n > 0 {
      WeakSignPow(x, y, n - 1);
      WeakSignMul(Pow(x, n - 1), Pow(y, n - 1), x);
      WeakSignMul(x, y, Pow(y, n - 1));
      WeakSignTrans(x * Pow(x, n - 1), x * Pow(y, n - 1), y * Pow(y, n - 1));
    }
  }

  /** Squaring the base halves the exponent. */
  lemma {:induction false} PowSquare(b: int, n: nat)
    ensures Pow(b * b, n) == Pow(b, 2 * n)
  {
    if n > 0 {
      PowSquare(b, n - 1);
      assert Pow(b, 2 * n) == b * (b * Pow(b, 2 * n - 2));
      MulAssoc(b, b, Pow(b, 2 * n - 2));
    }
  }
}
