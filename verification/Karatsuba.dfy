/** _bc_rec_mul: the recursive divide-and-conquer product. */
module Karatsuba {
  import opened Arith
  import opened Digits
  import opened Number
  import opened AddSub
  import opened SchoolMul
  import opened ShiftAdd

  const MUL_BASE_DIGITS := 80
  const MUL_SMALL_DIGITS := MUL_BASE_DIGITS / 4

  /** The split point: half the longer operand, rounded up. */
  function SplitPoint(ulen: nat, vlen: nat): (n: nat)
    ensures 2 * n - 1 <= Max(ulen, vlen) <= 2 * n
  {
    (Max(ulen, vlen) + 1) / 2
  }

  /** u == hi * 10^n + lo, in lengths that keep the recursion small. */
  ghost predicate IsSplit(u: seq<int>, n: nat, hi: BcNum, lo: BcNum) {
    && IsDigits(u) && u != [] && hi.Trimmed() && lo.Trimmed()
    && hi.sign == lo.sign == Plus && hi.scale == lo.scale == 0
    && 1 <= lo.len <= Min(n, |u|) && hi.len <= Min(n, |u|)
    && Val(u) == hi.Mag() * P(n) + lo.Mag()
    && (hi.Mag() > 0 ==> 1 <= hi.len <= |u| - n)
  }

  /** The high and low parts of an operand around its n low digits; the high part may be empty. */
  method Split(u: seq<int>, n: nat) returns (hi: BcNum, lo: BcNum)
    requires IsDigits(u) && u != [] && 1 <= n && |u| <= 2 * n
    ensures IsSplit(u, n, hi, lo)
    ensures hi.Trimmed() && lo.Trimmed() && hi.sign == lo.sign == Plus && hi.scale == lo.scale == 0
    ensures 1 <= lo.len <= Min(n, |u|) && hi.len <= Min(n, |u|)
  {
    if |u| < n {
      hi := Small(0);
      lo := RmLeadingZeros(BcNum(Plus, |u|, 0, u));
    } else {
      hi := RmLeadingZeros(BcNum(Plus, |u| - n, 0, u[..|u| - n]));
      lo := RmLeadingZeros(BcNum(Plus, n, 0, u[|u| - n..]));
      ValSplit(u, |u| - n);
      MagBound(hi);
    }
  }

  /** (u1 B + u0) (v1 B + v0) from three products. */
  lemma KaratsubaIdentity(u1: int, u0: int, v1: int, v0: int, b: int)
    ensures (u1 * b + u0) * (v1 * b + v0)
      == u1 * v1 * (b * b) + u1 * v1 * b + u0 * v0 * b + u0 * v0 + (u1 - u0) * (v0 - v1) * b
  {
    var x, y, z, w := u1 * v1, u1 * v0, u0 * v1, u0 * v0;
    assert (u1 - u0) * (v0 - v1) == y - x - w + z;
    calc {
      (u1 * b + u0) * (v1 * b + v0);
      { MulDist(u1 * b + u0, v1 * b, v0); }
      (u1 * b + u0) * (v1 * b) + (u1 * b + u0) * v0;
      { assert (u1 * b + u0) * (v1 * b) == x * (b * b) + z * b;
        assert (u1 * b + u0) * v0 == y * b + w; }
      x * (b * b) + z * b + y * b + w;
      { assert (y - x - w + z) * b == y * b - x * b - w * b + z * b; }
      x * (b * b) + x * b + w * b + w + (y - x - w + z) * b;
    }
  }

  /** The low product, counted twice, leaves room when the high product is missing. */
  lemma LowBound(m3: int, p: nat, q: nat, n: nat, l: nat)
    requires 0 <= m3 <= (P(p) - 1) * (P(q) - 1)
    requires (p == n || q == n) && p + q + n <= l
    ensures m3 * P(n) + m3 < P(l)
  {
    hide *;
    if q == n {
      LowBoundOne(m3, p, n, l);
    } else {
      LowBoundOne(m3, q, n, l);
    }
  }

  lemma LowBoundOne(m3: int, c: nat, n: nat, l: nat)
    requires 0 <= m3 <= (P(c) - 1) * (P(n) - 1) && c + n + n <= l
    ensures m3 * P(n) + m3 < P(l)
  {
    hide *;
    PAdd(n, n);
    PAdd(c, n + n);
    PMono(c + (n + n), l);
    LowBoundInts(m3, P(c), P(n));
  }

  lemma LowBoundInts(m3: int, x: nat, b: nat)
    requires x >= 1 && b >= 1 && 0 <= m3 <= (x - 1) * (b - 1)
    ensures m3 * b + m3 < x * (b * b)
  {
    MulDist(m3, b, 1);
    MulLe(m3, (x - 1) * (b - 1), b + 1);
    MulAssoc(x - 1, b - 1, b + 1);
    assert (b - 1) * (b + 1) == b * b - 1;
    Square(x, b);
  }

  lemma Square(x: nat, b: nat)
    requires x >= 1 && b >= 1
    ensures (x - 1) * (b * b - 1) < x * (b * b)
  {
    MulMono(1, b, 1, b);
    MulDist(x - 1, b * b, -1);
    MulDist(b * b, x, -1);
  }

  lemma HighBound(m1: int, k: nat, n: nat)
    requires 0 <= m1 < P(k)
    ensures m1 * P(2 * n) + m1 * P(n) < 2 * P(k + 2 * n)
  {
    PMono(n, 2 * n);
    PAdd(k, 2 * n);
    MulLe(m1 + 1, P(k), P(2 * n));
    MulDist(P(2 * n), m1, 1);
    MulMono(m1, m1, P(n), P(2 * n));
  }

  /** The running total of the five shifted terms always fits in ulen + vlen + 1 digits. */
  lemma TotalsFit(m1: int, m3: int, ulen: nat, vlen: nat, p: nat, q: nat, n: nat)
    requires n == SplitPoint(ulen, vlen) && n >= 2 && ulen >= 1 && vlen >= 1
    requires p == Min(n, ulen) && q == Min(n, vlen)
    requires 0 <= m3 <= (P(p) - 1) * (P(q) - 1) && 0 <= m1
    requires m1 > 0 ==> ulen > n && vlen > n && m1 < P(ulen - n + (vlen - n))
    ensures m1 * P(2 * n) + m1 * P(n) + m3 * P(n) + m3 < P(ulen + vlen + 1)
  {
    if m1 == 0 {
      LowBound(m3, p, q, n, ulen + vlen + 1);
    } else {
      LowBound(m3, p, q, n, ulen + vlen);
      HighBound(m1, ulen - n + (vlen - n), n);
      assert ulen - n + (vlen - n) + 2 * n == ulen + vlen;
    }
  }

  /** An integer whose top digit is a spare zero, as every product has. */
  predicate IsTerm(m: BcNum) {
    m.WellFormed() && m.scale == 0 && m.len >= 1 && m.digits[0] == 0
  }

  /** The five shifted additions, the last of them a subtraction when d1 and d2 differ in sign. */
  method Accumulate(prodlen: nat, m1: BcNum, m2: BcNum, m3: BcNum, n: nat, m1zero: bool, sub: bool)
    returns (buf: seq<int>)
    requires IsTerm(m1) && IsTerm(m2) && IsTerm(m3)
    requires m1zero ==> m1.Mag() == 0
    requires !m1zero ==> 2 * n + m1.len - 1 <= prodlen
    requires n + m2.len - 1 <= prodlen && n + m3.len - 1 <= prodlen
    requires m1.Mag() * P(2 * n) + m1.Mag() * P(n) + m3.Mag() * P(n) + m3.Mag() < P(prodlen)
    requires 0 <= m1.Mag() * P(2 * n) + m1.Mag() * P(n) + m3.Mag() * P(n) + m3.Mag() +
      (if sub then -m2.Mag() else m2.Mag()) * P(n) < P(prodlen)
    ensures |buf| == prodlen && IsDigits(buf)
    ensures Val(buf) == m1.Mag() * P(2 * n) + m1.Mag() * P(n) + m3.Mag() * P(n) + m3.Mag() +
      (if sub then -m2.Mag() else m2.Mag()) * P(n)
  {
    var prod := new int[prodlen](_ => 0);
    ValZeros(prod[..]);
    TermsNonneg(m1, m3, n);
    if !m1zero {
      ShiftAddSub(prod, m1, 2 * n, false);
      ShiftAddSub(prod, m1, n, false);
    }
    ShiftAddSub(prod, m3, n, false);
    ShiftAddSub(prod, m3, 0, false);
    ShiftAddSub(prod, m2, n, sub);
    buf := prod[..];
  }

  lemma TermsNonneg(m1: BcNum, m3: BcNum, n: nat)
    requires m1.WellFormed() && m3.WellFormed()
    ensures m1.Mag() * P(2 * n) >= 0 && m1.Mag() * P(n) >= 0 && m3.Mag() * P(n) >= 0 && m3.Mag() >= 0
    ensures m1.Mag() == 0 ==> m1.Mag() * P(2 * n) == 0 && m1.Mag() * P(n) == 0
  {
    MagBound(m1);
    MagBound(m3);
    MulMono(0, m1.Mag(), 0, P(2 * n));
    MulMono(0, m1.Mag(), 0, P(n));
    MulMono(0, m3.Mag(), 0, P(n));
  }

  /** A product that is skipped when either factor is zero. */
  ghost predicate IsProduct(m: BcNum, x: BcNum, y: BcNum)
  {
    && IsTerm(m)
    && m.Mag() == x.Mag() * y.Mag()
    && m.len <= x.len + y.len + 1
  }

  /** Everything one level of the recursion has in hand before it adds up. */
  datatype Parts = Parts(n: nat, u1: BcNum, u0: BcNum, v1: BcNum, v0: BcNum, d1: BcNum, d2: BcNum,
                         m1: BcNum, m2: BcNum, m3: BcNum)
  {
    ghost predicate Of(u: seq<int>, v: seq<int>) {
      && IsSplit(u, n, u1, u0) && IsSplit(v, n, v1, v0)
      && n == SplitPoint(|u|, |v|) && n >= 2
      && d1.WellFormed() && d2.WellFormed() && d1.scale == d2.scale == 0
      && d1.Int() == u1.Mag() - u0.Mag() && d2.Int() == v0.Mag() - v1.Mag()
      && d1.len <= Min(n, |u|) && d2.len <= Min(n, |v|)
      && IsProduct(m1, u1, v1) && IsProduct(m2, d1, d2) && IsProduct(m3, u0, v0)
    }

    ghost function Partial(): int {
      m1.Mag() * P(2 * n) + m1.Mag() * P(n) + m3.Mag() * P(n) + m3.Mag()
    }

    ghost function Cross(): int {
      if d1.sign != d2.sign then -m2.Mag() else m2.Mag()
    }
  }

  lemma CrossIsProduct(u: seq<int>, v: seq<int>, r: Parts)
    requires r.Of(u, v)
    ensures r.Cross() == (r.u1.Mag() - r.u0.Mag()) * (r.v0.Mag() - r.v1.Mag())
  {
    SignedProduct(r.d1.sign, r.d1.Mag(), r.d2.sign, r.d2.Mag());
  }

  lemma SignedProduct(s1: Sign, x: int, s2: Sign, y: int)
    ensures Signed(s1, x) * Signed(s2, y) == if s1 != s2 then -(x * y) else x * y
  {
    assert (-x) * y == -(x * y) && x * (-y) == -(x * y) && (-x) * (-y) == x * y;
  }

  lemma PositiveFactors(x: int, y: int)
    requires x >= 0 && y >= 0 && x * y > 0
    ensures x > 0 && y > 0
  {
  }

  lemma LowProductBound(m3: int, u0: BcNum, v0: BcNum, p: nat, q: nat)
    requires u0.WellFormed() && v0.WellFormed() && u0.scale == v0.scale == 0 && u0.len <= p && v0.len <= q
    requires m3 == u0.Mag() * v0.Mag()
    ensures 0 <= m3 <= (P(p) - 1) * (P(q) - 1)
  {
    MagBound(u0);
    MagBound(v0);
    PMono(u0.len, p);
    PMono(v0.len, q);
    MulMono(u0.Mag(), P(p) - 1, v0.Mag(), P(q) - 1);
    MulMono(0, u0.Mag(), 0, v0.Mag());
  }

  lemma HighProductBound(u: seq<int>, v: seq<int>, r: Parts)
    requires r.Of(u, v)
    ensures r.m1.Mag() >= 0
    ensures r.m1.Mag() > 0 ==> |u| > r.n && |v| > r.n && r.m1.Mag() < P(|u| - r.n + (|v| - r.n))
  {
    hide P, Val;
    MagBound(r.u1);
    MagBound(r.v1);
    MagBound(r.m1);
    if r.m1.Mag() > 0 {
      PositiveFactors(r.u1.Mag(), r.v1.Mag());
      hide *;
      FactorsBound(r.u1.Mag(), r.v1.Mag(), r.u1.len, r.v1.len, |u| - r.n + (|v| - r.n));
    }
  }

  lemma FactorsBound(x: int, y: int, p: nat, q: nat, l: nat)
    requires 0 <= x < P(p) && 0 <= y < P(q) && p + q <= l
    ensures 0 <= x * y < P(l)
  {
    hide *;
    MulBound(x, y, P(p), P(q));
    PAdd(p, q);
    PMono(p + q, l);
  }

  /** No running total overflows ulen + vlen + 1 digits. */
  lemma PartialFits(u: seq<int>, v: seq<int>, r: Parts)
    requires r.Of(u, v)
    ensures r.Partial() < P(|u| + |v| + 1)
  {
    hide P, Val;
    LowProductBound(r.m3.Mag(), r.u0, r.v0, Min(r.n, |u|), Min(r.n, |v|));
    HighProductBound(u, v, r);
    TotalsFit(r.m1.Mag(), r.m3.Mag(), |u|, |v|, Min(r.n, |u|), Min(r.n, |v|), r.n);
  }

  /** The three products, shifted and added, are the whole product. */
  lemma Combine(u: seq<int>, v: seq<int>, r: Parts)
    requires r.Of(u, v)
    ensures r.Partial() + r.Cross() * P(r.n) == Val(u) * Val(v)
  {
    hide P, Val;
    CrossIsProduct(u, v, r);
    PAdd(r.n, r.n);
    CombineInts(r.u1.Mag(), r.u0.Mag(), r.v1.Mag(), r.v0.Mag(), P(r.n), P(2 * r.n),
                r.m1.Mag(), r.m3.Mag(), r.Cross(), Val(u), Val(v));
  }

  lemma CombineInts(u1: int, u0: int, v1: int, v0: int, b: int, bb: int, m1: int, m3: int, cross: int, u: int, v: int)
    requires bb == b * b && m1 == u1 * v1 && m3 == u0 * v0 && cross == (u1 - u0) * (v0 - v1)
    requires u == u1 * b + u0 && v == v1 * b + v0
    ensures m1 * bb + m1 * b + m3 * b + m3 + cross * b == u * v
  {
    KaratsubaIdentity(u1, u0, v1, v0, b);
  }

  /** The difference of two parts, as bc_sub forms it. */
  method SubParts(x: BcNum, y: BcNum) returns (d: BcNum)
    requires x.Trimmed() && y.Trimmed() && x.sign == y.sign == Plus && x.scale == y.scale == 0
    requires x.len >= 1 || y.len >= 1
    ensures d.WellFormed() && d.scale == 0 && 1 <= d.len <= Max(x.len, y.len)
    ensures d.Int() == x.Mag() - y.Mag()
  {
    d := Sub(x, y, 0);
    assert P(0) == 1;
  }

  /** Add up the products of one level. */
  method Assemble(u: seq<int>, v: seq<int>, r: Parts, m1zero: bool) returns (prod: BcNum)
    requires r.Of(u, v) && (m1zero ==> r.m1.Mag() == 0) && (!m1zero ==> r.u1.Mag() != 0 && r.v1.Mag() != 0)
    ensures prod.WellFormed() && prod.sign == Plus && prod.scale == 0 && prod.len == |u| + |v| + 1
    ensures prod.Mag() == Val(u) * Val(v)
    ensures prod.digits[0] == 0
  {
    hide P, Val;
    MagBound(r.u1);
    MagBound(r.v1);
    PartialFits(u, v, r);
    Combine(u, v, r);
    ProductBound(u, v);
    PMono(|u| + |v|, |u| + |v| + 1);
    var buf := Accumulate(|u| + |v| + 1, r.m1, r.m2, r.m3, r.n, m1zero, r.d1.sign != r.d2.sign);
    prod := BcNum(Plus, |u| + |v| + 1, 0, buf);
    ValLeading(buf);
    MulCancelLt(buf[0], 1, P(|u| + |v|));
  }

  /** The integer product of two digit strings, for all lengths. */
  method RecMul(u: seq<int>, v: seq<int>) returns (prod: BcNum)
    requires IsDigits(u) && IsDigits(v) && u != [] && v != []
    ensures prod.WellFormed() && prod.sign == Plus && prod.scale == 0 && prod.len == |u| + |v| + 1
    ensures prod.Mag() == Val(u) * Val(v)
    ensures prod.digits[0] == 0
    decreases |u| + |v|, 1
  {
    hide P, Val, IsSplit, IsProduct;
    if |u| + |v| < MUL_BASE_DIGITS || |u| < MUL_SMALL_DIGITS || |v| < MUL_SMALL_DIGITS {
      prod := SimpMul(u, v);
      return;
    }
    var n := SplitPoint(|u|, |v|);
    var u1, u0 := Split(u, n);
    var v1, v0 := Split(v, n);
    var uzero := IsZero(u1);
    var vzero := IsZero(v1);
    var m1zero := uzero || vzero;
    var d1 := SubParts(u1, u0);
    var d2 := SubParts(v0, v1);
    var m1 := SubProduct(u1, v1, |u| + |v|);
    var m2 := SubProduct(d1, d2, |u| + |v|);
    var m3 := SubProduct(u0, v0, |u| + |v|);
    prod := Assemble(u, v, Parts(n, u1, u0, v1, v0, d1, d2, m1, m2, m3), m1zero);
  }

  /** A recursive product, skipped when a factor is zero. */
  method SubProduct(x: BcNum, y: BcNum, ghost bound: nat) returns (m: BcNum)
    requires x.WellFormed() && y.WellFormed() && x.scale == y.scale == 0
    requires x.len + y.len < bound
    ensures IsProduct(m, x, y)
    decreases bound, 0
  {
    var zx := IsZero(x);
    var zy := IsZero(y);
    if zx || zy {
      m := Small(0);
    } else {
      m := RecMul(x.digits, y.digits);
    }
  }
}
