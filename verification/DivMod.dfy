/** bc_divmod and bc_raisemod. */
module DivMod {
  import opened Arith
  import opened Digits
  import opened Number
  import opened AddSub
  import opened Multiply
  import opened Divide
  import opened Wrappers

  /** n1 == quot * n2 + rem exactly, with a remainder smaller than n2 * 10^-scale and never of the wrong sign. */
  ghost predicate IsDivMod(n1: BcNum, n2: BcNum, scale: nat, quot: BcNum, rem: BcNum)
  {
    && quot.Valid() && quot.scale == scale
    && rem.Trimmed() && rem.len >= 1 && rem.scale == Max(n1.scale, n2.scale + scale)
    && (n1.Valid() && n2.Valid() ==> rem.Valid())
    && n1.At(rem.scale) == quot.Int() * n2.Int() * P(rem.scale - n2.scale - scale) + rem.Int()
    && Abs(rem.Int()) < Abs(n2.Int()) * P(rem.scale - n2.scale - scale)
    && WeakSign(rem.Int(), n1.Int())
  }

  /** bc_divmod: quotient to scale decimals and the exact remainder. */
  method DivRem(n1: BcNum, n2: BcNum, scale: nat) returns (r: Option<(BcNum, BcNum)>)
    requires n1.Trimmed() && n2.Trimmed() && n1.len >= 1 && n2.len >= 1
    ensures r.None? <==> n2.Mag() == 0
    ensures r.Some? ==> IsDivMod(n1, n2, scale, r.value.0, r.value.1)
  {
    hide P, Val, TruncDiv;
    var rscale := Max(n1.scale, n2.scale + scale);
    var q := Div(n1, n2, scale);
    if q.None? {
      return None;
    }
    var quot := q.value;
    var temp := Mul(quot, n2, rscale);
    var rem := Sub(n1, temp, rscale);
    RemainderFacts(n1.Int(), n2.Int(), n1.scale, n2.scale, scale, rscale, quot.Int(), rem.Int());
    r := Some((quot, rem));
  }

  /** The remainder bc_divmod subtracts out is the integer remainder of the division it performed, rescaled. */
  lemma RemainderFacts(a: int, b: int, s1: nat, s2: nat, scale: nat, rscale: nat, q: int, m: int)
    requires rscale >= s1 && rscale >= s2 + scale && b != 0 && b * P(s1) != 0
    requires q == TruncDiv(a * P(s2 + scale), b * P(s1))
    requires m == a * P(rscale - s1) - q * b * P(rscale - s2 - scale)
    ensures Abs(m) < Abs(b) * P(rscale - s2 - scale) && WeakSign(m, a)
  {
    hide P, TruncDiv;
    var x, y, f := a * P(s2 + scale), b * P(s1), P(rscale - s2 - scale);
    var rho := TruncRem(x, y);
    TruncRemBound(x, y);
    PAdd(s2 + scale, rscale - s2 - scale);
    PAdd(s1, rscale - s1);
    MulAssoc(a, P(s2 + scale), f);
    MulAssoc(a, P(rscale - s1), P(s1));
    ScaledRemainder(a, b, P(s2 + scale), P(s1), P(rscale - s1), f, q, m, rho);
  }

  /** The same on plain numbers: m and rho are one remainder in two units. */
  lemma ScaledRemainder(a: int, b: int, p2: nat, p1: nat, e: nat, f: nat, q: int, m: int, rho: int)
    requires p2 >= 1 && p1 >= 1 && e >= 1 && f >= 1 && p1 * e == p2 * f
    requires rho == a * p2 - q * (b * p1) && m == a * e - q * b * f
    requires Abs(rho) < Abs(b * p1) && WeakSign(rho, a * p2)
    ensures Abs(m) < Abs(b) * f && WeakSign(m, a)
  {
    SameRemainder(a, b, p2, p1, e, f, q, m, rho);
    ProductSign(a, p2);
    ProductSign(m, p1);
    ProductSign(rho, f);
    RescaledBound(b, p1, f, m, rho);
  }

  lemma RescaledBound(b: int, p1: nat, f: nat, m: int, rho: int)
    requires p1 >= 1 && f >= 1 && m * p1 == rho * f && Abs(rho) < Abs(b * p1)
    ensures Abs(m) < Abs(b) * f
  {
    AbsProduct(b, p1);
    AbsProduct(m, p1);
    AbsProduct(rho, f);
    MulBoundBelow(Abs(rho), Abs(b) * p1, f);
    SwapFactors(Abs(b), p1, f);
    MulCancelLt(Abs(m), Abs(b) * f, p1);
  }

  lemma MulBoundBelow(x: int, y: int, f: nat)
    requires x < y && f >= 1
    ensures x * f < y * f
  {
    MulLe(x + 1, y, f);
    MulDist(f, x, 1);
  }

  lemma SwapFactors(x: int, y: int, z: int)
    ensures x * y * z == x * z * y
  {
  }

  lemma AbsProduct(x: int, p: nat)
    ensures Abs(x * p) == Abs(x) * p
  {
    ProductSign(x, p);
    assert (-x) * p == -(x * p);
  }

  lemma SameRemainder(a: int, b: int, p2: int, p1: int, e: int, f: int, q: int, m: int, rho: int)
    requires p1 * e == p2 * f
    requires rho == a * p2 - q * (b * p1) && m == a * e - q * b * f
    ensures m * p1 == rho * f
  {
    calc {
      m * p1;
      { MulDist(p1, a * e, -(q * b * f)); }
      a * e * p1 - q * b * f * p1;
      { MulAssoc(a, e, p1); MulAssoc(a, p2, f); assert q * b * f * p1 == q * (b * p1) * f; }
      a * p2 * f - q * (b * p1) * f;
      { MulDist(f, a * p2, -(q * (b * p1))); }
      rho * f;
    }
  }

  /** bc_modulo. */
  method Modulo(n1: BcNum, n2: BcNum, scale: nat) returns (r: Option<BcNum>)
    requires n1.Trimmed() && n2.Trimmed() && n1.len >= 1 && n2.len >= 1
    ensures r.None? <==> n2.Mag() == 0
    ensures r.Some? ==> exists q :: IsDivMod(n1, n2, scale, q, r.value)
  {
    var d := DivRem(n1, n2, scale);
    r := match d
      case None => None
      case Some(p) => Some(p.1);
  }

  /** On integers at scale 0 it is the integer remainder, with the integer quotient. */
  lemma IntegerDivMod(n1: BcNum, n2: BcNum, quot: BcNum, rem: BcNum)
    requires IsDivMod(n1, n2, 0, quot, rem) && n1.scale == 0 && n2.scale == 0
    ensures n2.Int() != 0 && rem.scale == 0
    ensures rem.Int() == TruncRem(n1.Int(), n2.Int()) && quot.Int() == TruncDiv(n1.Int(), n2.Int())
  {
    IntegerRemainder(n1.Int(), n2.Int(), quot.Int(), rem.Int());
  }

  lemma IntegerRemainder(a: int, b: int, q: int, m: int)
    requires b != 0 && a == q * b + m && Abs(m) < Abs(b) && WeakSign(m, a)
    ensures m == TruncRem(a, b) && q == TruncDiv(a, b)
  {
    hide TruncDiv;
    CongIntro(m, a, b, -q);
    TruncRemUnique(m, a, b);
    MulDist(b, q, -TruncDiv(a, b));
    ZeroFactor(q - TruncDiv(a, b), b);
  }

  lemma ZeroFactor(x: int, y: int)
    requires x * y == 0 && y != 0
    ensures x == 0
  {
  }

  /** The integer part of the magnitude. */
  function Whole(n: BcNum): nat {
    NatQuotient(Abs(n.Int()), P(n.scale))
  }

  function NatQuotient(x: nat, p: nat): nat
    requires p >= 1
  {
    x / p
  }

  /** What one turn of the square-and-multiply loop keeps: temp * power^e stands for base^expo modulo m. */
  ghost predicate Standing(temp: int, power: int, e: nat, target: int, m: int)
  {
    Cong(temp * Pow(power, e), target, m) && WeakSign(temp * Pow(power, e), target)
  }

  /** Multiply the result in when the exponent is odd. */
  lemma OddTurn(temp: int, next: int, power: int, e: nat, target: int, m: int)
    requires m != 0 && e % 2 == 1 && Standing(temp, power, e, target, m) && next == TruncRem(temp * power, m)
    ensures Standing(next, power, e - 1, target, m)
  {
    hide TruncRem;
    CongRem(temp * power, m);
    TruncRemBound(temp * power, m);
    var w := Pow(power, e - 1);
    MulAssoc(temp, power, w);
    CongMul(next, temp * power, w, m);
    WeakSignMul(next, temp * power, w);
    CongTrans(next * w, temp * Pow(power, e), target, m);
    WeakSignTrans(next * w, temp * Pow(power, e), target);
  }

  /** Square the power and halve the exponent. */
  lemma SquareTurn(temp: int, power: int, next: int, e: nat, target: int, m: int)
    requires m != 0 && e % 2 == 0 && Standing(temp, power, e, target, m) && next == TruncRem(power * power, m)
    ensures Standing(temp, next, e / 2, target, m)
  {
    hide TruncRem;
    CongRem(power * power, m);
    TruncRemBound(power * power, m);
    CongPow(next, power * power, e / 2, m);
    WeakSignPow(next, power * power, e / 2);
    PowSquare(power, e / 2);
    var x, y := Pow(next, e / 2), Pow(power, e);
    CongMul(x, y, temp, m);
    WeakSignMul(x, y, temp);
    CongTrans(temp * x, temp * y, target, m);
    WeakSignTrans(temp * x, temp * y, target);
  }

  /** r is smaller than the modulus in units of 10^-scale. */
  ghost predicate Reduced(r: BcNum, mod: BcNum, scale: nat) {
    r.scale >= mod.scale + scale && Abs(r.Int()) < Abs(mod.Int()) * P(r.scale - mod.scale - scale)
  }

  /** temp := temp * power mod m, as the loop body does it. */
  method MulMod(x: BcNum, y: BcNum, mod: BcNum, rscale: nat, scale: nat) returns (r: BcNum)
    requires x.Trimmed() && x.len >= 1 && y.Trimmed() && y.len >= 1 && mod.Valid() && mod.Mag() != 0
    ensures r.Valid() && Reduced(r, mod, scale)
    ensures x.scale == 0 && y.scale == 0 && mod.scale == 0 && scale == 0 ==>
      r.scale == 0 && mod.Int() != 0 && r.Int() == TruncRem(x.Int() * y.Int(), mod.Int())
  {
    var p := Mul(x, y, rscale);
    var m := Modulo(p, mod, scale);
    r := m.value;
    ghost var q :| IsDivMod(p, mod, scale, q, r);
    if x.scale == 0 && y.scale == 0 && mod.scale == 0 && scale == 0 {
      IntegerDivMod(p, mod, q, r);
    }
  }

  /** exponent, parity := exponent / 2, exponent mod 2. */
  method Halve(e: BcNum) returns (half: BcNum, odd: bool)
    requires e.Valid() && e.scale == 0 && e.Int() >= 0
    ensures half.Valid() && half.scale == 0 && half.Int() == e.Int() / 2
    ensures odd <==> e.Int() % 2 == 1
  {
    var d := DivRem(e, Small(2), 0);
    half := d.value.0;
    IntegerDivMod(e, Small(2), d.value.0, d.value.1);
    HalfFacts(e.Int());
    var even := IsZero(d.value.1);
    odd := !even;
  }

  lemma HalfFacts(x: int)
    requires x >= 0
    ensures TruncDiv(x, 2) == x / 2 && TruncRem(x, 2) == x % 2
  {
  }

  /** The loop of bc_raisemod between turns; the last two facts tell when temp has been reduced. */
  ghost predicate Raising(base: BcNum, expo: nat, mod: BcNum, temp: BcNum, power: BcNum, e: BcNum)
  {
    && temp.Valid() && power.Trimmed() && power.len >= 1 && e.Valid() && e.scale == 0 && e.Int() >= 0
    && temp.scale == 0 && power.scale == 0
    && Standing(temp.Int(), power.Int(), e.Int(), Pow(base.Int(), expo), mod.Int())
    && (Abs(temp.Int()) < Abs(mod.Int()) || (temp.Int() == 1 && (e.Int() > 0 || expo == 0)))
    && (expo == 0 ==> temp.Int() == 1 && e.Int() == 0)
  }

  /** One turn of the loop of bc_raisemod. */
  method RaiseTurn(base: BcNum, ghost expo: nat, mod: BcNum, scale: nat, temp: BcNum, power: BcNum, e: BcNum)
    returns (temp': BcNum, power': BcNum, e': BcNum)
    requires mod.Valid() && mod.Mag() != 0
    requires temp.Valid() && power.Trimmed() && power.len >= 1 && e.Valid() && e.scale == 0 && e.Int() > 0
    ensures temp' == temp || Reduced(temp', mod, scale)
    ensures temp'.Valid() && power'.Valid() && e'.Valid() && e'.scale == 0 && e'.Int() == e.Int() / 2
    ensures base.scale == 0 && mod.scale == 0 && scale == 0 && Raising(base, expo, mod, temp, power, e)
      ==> Raising(base, expo, mod, temp', power', e')
  {
    hide P, Val, Standing, Pow;
    ghost var ints := base.scale == 0 && mod.scale == 0 && scale == 0 && Raising(base, expo, mod, temp, power, e);
    ghost var target, m := Pow(base.Int(), expo), mod.Int();
    var rscale, odd := Max(scale, base.scale), false;
    temp' := temp;
    e', odd := Halve(e);
    if odd {
      temp' := MulMod(temp, power, mod, rscale, scale);
      if ints {
        OddTurn(temp.Int(), temp'.Int(), power.Int(), e.Int(), target, m);
        TruncRemBound(temp.Int() * power.Int(), m);
      }
    }
    power' := MulMod(power, power, mod, rscale, scale);
    if ints {
      SquareTurn(temp'.Int(), power.Int(), power'.Int(), if odd then e.Int() - 1 else e.Int(), target, m);
    }
  }

  /** What bc_raisemod promises on integers, and when it is exactly the remainder. */
  ghost predicate IsRaiseMod(base: BcNum, expo: BcNum, mod: BcNum, r: BcNum)
  {
    && r.scale == 0 && mod.Int() != 0
    && Cong(r.Int(), Pow(base.Int(), Whole(expo)), mod.Int())
    && (r.Int() == TruncRem(Pow(base.Int(), Whole(expo)), mod.Int()) <==> Whole(expo) > 0 || Abs(mod.Int()) > 1)
  }

  /** bc_raisemod: base^expo modulo mod, for integers at scale 0; the result is never reduced when expo is zero. */
  method RaiseMod(base: BcNum, expo: BcNum, mod: BcNum, scale: nat) returns (r: Option<BcNum>)
    requires base.Trimmed() && base.len >= 1 && expo.Trimmed() && expo.len >= 1 && mod.Trimmed() && mod.len >= 1
    ensures r.None? <==> mod.Mag() == 0 || expo.sign == Minus
    ensures r.Some? ==> r.value.Valid() && (r.value == Small(1) || Reduced(r.value, mod, scale))
    ensures r.Some? && base.scale == 0 && mod.scale == 0 && scale == 0 ==> IsRaiseMod(base, expo, mod, r.value)
  {
    hide P, Val, Standing, Whole, TruncRem;
    var zero := IsZero(mod);
    if zero || expo.sign == Minus {
      return None;
    }
    var power, temp := base, Small(1);
    var exponent := WholePart(expo);
    ghost var w := Whole(expo);
    StartStanding(base.Int(), w, mod.Int());
    var done := IsZero(exponent);
    while !done
      invariant temp == Small(1) || Reduced(temp, mod, scale)
      invariant temp.Valid() && power.Trimmed() && power.len >= 1
      invariant exponent.Valid() && exponent.scale == 0 && exponent.Int() >= 0
      invariant done <==> exponent.Mag() == 0
      invariant base.scale == 0 && mod.scale == 0 && scale == 0 ==> Raising(base, w, mod, temp, power, exponent)
      decreases exponent.Int()
    {
      temp, power, exponent := RaiseTurn(base, w, mod, scale, temp, power, exponent);
      done := IsZero(exponent);
    }
    if base.scale == 0 && mod.scale == 0 && scale == 0 {
      Settled(temp.Int(), power.Int(), w, Pow(base.Int(), w), mod.Int());
    }
    r := Some(temp);
  }

  /** The exponent without its fraction. */
  method WholePart(n: BcNum) returns (r: BcNum)
    requires n.Trimmed() && n.len >= 1 && n.sign == Plus
    ensures r.Valid() && r.scale == 0 && r.Int() == Whole(n)
  {
    MagBound(n);
    if n.scale != 0 {
      var d := Div(n, Small(1), 0);
      r := d.value;
    } else {
      r := n;
    }
    UnitPower();
  }

  lemma UnitPower()
    ensures P(0) == 1
  {
  }

  lemma StartStanding(b: int, e: nat, m: int)
    ensures Standing(1, b, e, Pow(b, e), m)
    ensures e == 0 ==> Pow(b, e) == 1
  {
    CongIntro(1 * Pow(b, e), Pow(b, e), m, 0);
  }

  /** With the exponent used up, the result is the remainder, unless nothing was ever reduced. */
  lemma Settled(temp: int, power: int, e: nat, target: int, m: int)
    requires m != 0 && Standing(temp, power, 0, target, m)
    requires Abs(temp) < Abs(m) || (temp == 1 && e == 0)
    requires e == 0 ==> temp == 1 && target == 1
    ensures Cong(temp, target, m)
    ensures temp == TruncRem(target, m) <==> e > 0 || Abs(m) > 1
  {
    assert temp * Pow(power, 0) == temp;
    if Abs(temp) < Abs(m) {
      TruncRemUnique(temp, target, m);
    } else {
      TruncRemBound(1, m);
    }
  }
}
