/** bc_num2long and bc_raise. */
module Raise {
  import opened Arith
  import opened Digits
  import opened Number
  import opened AddSub
  import opened Multiply
  import opened Divide
  import opened Wrappers

  /** The header's fallback value; with it the last accepted step may go up to nine beyond. */
  const LONG_MAX := 0x7ff_ffff
  const LONG_LIMIT := LONG_MAX / 10 * 10 + 9

  /** The integer digits of n, as a number. */
  function WholeMag(n: BcNum): int
    requires n.WellFormed()
  {
    Val(n.digits[..n.len])
  }

  /** The machine integer bc_num2long hands out: the integer part, or zero when it is out of range. */
  function LongOf(n: BcNum): int
    requires n.WellFormed()
  {
    if WholeMag(n) <= LONG_LIMIT then Signed(n.sign, WholeMag(n)) else 0
  }

  /** bc_num2long. */
  method Num2Long(n: BcNum) returns (val: int)
    requires n.WellFormed()
    ensures val == LongOf(n)
  {
    hide P, Val;
    EmptyVal(n.digits[..0]);
    var i, v := 0, 0;
    while i < n.len && v <= LONG_MAX / 10
      invariant 0 <= i <= n.len && v == Val(n.digits[..i]) && 0 <= v <= LONG_LIMIT
    {
      assert n.digits[..i + 1] == n.digits[..i] + [n.digits[i]];
      ValSnoc(n.digits[..i], n.digits[i]);
      v := v * 10 + n.digits[i];
      i := i + 1;
    }
    if i < n.len {
      assert n.digits[..n.len][..i] == n.digits[..i];
      PrefixTooLarge(n.digits[..n.len], i);
      v := 0;
    }
    val := if n.sign == Plus then v else -v;
  }

  lemma EmptyVal(s: seq<int>)
    requires s == []
    ensures Val(s) == 0
  {
  }

  /** More digits only make the number larger. */
  lemma PrefixTooLarge(s: seq<int>, i: nat)
    requires IsDigits(s) && i < |s| && Val(s[..i]) > LONG_MAX / 10
    ensures Val(s) > LONG_LIMIT
  {
    hide P, Val;
    ValSplit(s, i);
    ValBound(s[i..]);
    TenAtLeast(|s| - i);
    MulMono(LONG_MAX / 10 + 1, Val(s[..i]), 10, P(|s| - i));
  }

  lemma TenAtLeast(n: nat)
    requires n >= 1
    ensures P(n) >= 10
  {
  }

  /** A power with all its decimals: value b^w at scale s * w. */
  ghost predicate ExactPower(x: BcNum, b: BcNum, w: nat)
  {
    && x.WellFormed() && x.len >= 1 && x.scale == b.scale * w && x.Int() == Pow(b.Int(), w)
    && (b.Valid() ==> x.Valid())
  }

  /** Multiplying two exact powers at their full scale gives the exact power of the sum. */
  method MulExact(x: BcNum, y: BcNum, b: BcNum, ghost v: nat, ghost w: nat, scale: nat) returns (r: BcNum)
    requires ExactPower(x, b, v) && ExactPower(y, b, w) && scale == x.scale + y.scale
    ensures ExactPower(r, b, v + w)
  {
    hide P, Val, Pow;
    r := Mul(x, y, scale);
    PowAdd(b.Int(), v, w);
    MulDist(b.scale, v, w);
  }

  /** The squarings that strip factors of two off the exponent. */
  method StripTwos(b: BcNum, exponent: nat) returns (power: BcNum, e: nat, ghost w: nat)
    requires b.WellFormed() && b.len >= 1 && exponent > 0
    ensures ExactPower(power, b, w) && e % 2 == 1 && exponent == e * w
  {
    hide P, Val, Pow;
    power, e, w := b, exponent, 1;
    FirstPower(b);
    var pwrscale := b.scale;
    while e % 2 == 0
      invariant e > 0 && exponent == e * w && ExactPower(power, b, w) && pwrscale == power.scale
      decreases e
    {
      pwrscale := 2 * pwrscale;
      power := MulExact(power, power, b, w, w, pwrscale);
      HalfDouble(e, w);
      e, w := e / 2, w + w;
    }
  }

  lemma FirstPower(b: BcNum)
    requires b.WellFormed() && b.len >= 1
    ensures ExactPower(b, b, 1)
  {
    assert Pow(b.Int(), 1) == b.Int() * Pow(b.Int(), 0);
  }

  lemma HalfDouble(e: nat, w: nat)
    requires e % 2 == 0
    ensures e / 2 * (w + w) == e * w
  {
    assert e == 2 * (e / 2);
    MulAssoc(e / 2, 2, w);
  }

  lemma OddSplit(e: nat, w: nat)
    ensures e * (w + w) == (if e % 2 == 1 then w + w else 0) + e / 2 * (w + w + (w + w))
  {
    assert e == e % 2 + 2 * (e / 2);
    MulDist(w + w, e % 2, 2 * (e / 2));
    MulAssoc(e / 2, 2, w + w);
  }

  /** num1 to a positive power, with every decimal. */
  method PowerLoop(b: BcNum, exponent: nat) returns (temp: BcNum)
    requires b.WellFormed() && b.len >= 1 && exponent > 0
    ensures ExactPower(temp, b, exponent)
  {
    hide P, Val, Pow;
    var power, e;
    ghost var w, t;
    power, e, w := StripTwos(b, exponent);
    var pwrscale, calcscale := power.scale, power.scale;
    temp, t := power, w;
    SplitOdd(e, w);
    e := e / 2;
    while e > 0
      invariant ExactPower(power, b, w) && ExactPower(temp, b, t) && exponent == t + e * (w + w)
      invariant pwrscale == power.scale && calcscale == temp.scale
    {
      pwrscale := 2 * pwrscale;
      power := MulExact(power, power, b, w, w, pwrscale);
      OddSplit(e, w);
      w := w + w;
      if e % 2 == 1 {
        calcscale := pwrscale + calcscale;
        temp := MulExact(temp, power, b, t, w, calcscale);
        t := t + w;
      }
      e := e / 2;
    }
  }

  lemma SplitOdd(e: nat, w: nat)
    requires e % 2 == 1
    ensures e * w == w + e / 2 * (w + w)
  {
    assert e == 1 + 2 * (e / 2);
    MulDist(w, 1, 2 * (e / 2));
    MulAssoc(e / 2, 2, w);
  }

  /** Cutting a power back to rscale decimals truncates it. */
  lemma CutPower(x: BcNum, rscale: nat)
    requires x.WellFormed() && x.len >= 1 && rscale <= x.scale
    ensures x.len + rscale <= |x.digits| && IsDigits(x.digits[..x.len + rscale])
    ensures Signed(x.sign, Val(x.digits[..x.len + rscale])) == TruncDiv(x.Int(), P(x.scale - rscale))
  {
    hide P, Val;
    ValPrefix(x.digits, x.len + rscale);
    ValBound(x.digits);
  }

  /** The result scale bc prescribes for a positive power. */
  function PowerScale(n: BcNum, e: nat, scale: nat): nat {
    Min(n.scale * e, Max(scale, n.scale))
  }

  /**
   The decimals of a power, where the base has s and the exact power has full: all of them, or as many as are asked
   for or the base has.
   */
  predicate PowerScaleIs(s: nat, full: int, scale: nat, r: nat) {
    && s <= r <= full && (r < full ==> scale <= r) && r in {full, scale, s}
    && (r == full ==> scale >= full || s >= full)
  }

  lemma PowerScaleOk(n: BcNum, e: nat, scale: nat)
    requires e > 0
    ensures PowerScaleIs(n.scale, n.scale * e, scale, PowerScale(n, e, scale))
  {
    MulMono(n.scale, n.scale, 1, e);
  }

  lemma FirstScale(n: BcNum, scale: nat)
    ensures PowerScale(n, 1, scale) == n.scale
  {
  }

  lemma WholeNumber(x: BcNum)
    requires x.WellFormed()
    ensures BcNum(x.sign, x.len, x.scale, x.digits[..x.len + x.scale]) == x
  {
  }

  /** A number to the first power is that number, digit for digit. */
  lemma FirstIsSame(n: BcNum, x: BcNum)
    requires n.Valid() && ExactPower(x, n, 1)
    ensures x == n
  {
    assert Pow(n.Int(), 1) == n.Int() * Pow(n.Int(), 0);
    hide Pow, Val, P;
    MagBound(x);
    MagBound(n);
    SameNumber(x, n);
  }

  lemma PowerScaleFits(n: BcNum, e: nat, scale: nat)
    ensures 0 <= PowerScale(n, e, scale) <= n.scale * e
  {
    MulMono(0, n.scale, 0, e);
  }

  /** r is n to the e, truncated toward zero at r's own scale. */
  ghost predicate IsCutPower(n: BcNum, e: nat, r: BcNum)
  {
    r.scale <= n.scale * e && r.Int() == TruncDiv(Pow(n.Int(), e), P(n.scale * e - r.scale))
  }

  /** r is one over n to the e, truncated toward zero at r's own scale. */
  ghost predicate IsInversePower(n: BcNum, e: nat, r: BcNum)
  {
    Pow(n.Int(), e) != 0 && r.Int() == TruncDiv(P(n.scale * e + r.scale), Pow(n.Int(), e))
  }

  /**
   r is n raised to the exponent e: 1 for a zero exponent; for a positive one the exact power truncated to its
   scale; for a negative one the truncated quotient 1 / power, and nothing when the power is zero.
   */
  ghost predicate IsRaised(n: BcNum, e: int, scale: nat, r: Option<BcNum>) {
    if e == 0 then r == Some(Small(1))
    else if e > 0 then
      r.Some? && r.value.WellFormed() && r.value.scale == PowerScale(n, e, scale) && IsCutPower(n, e, r.value)
    else
      && (r.None? <==> Pow(n.Int(), -e) == 0)
      && (r.Some? ==> r.value.Valid() && r.value.scale == scale && IsInversePower(n, -e, r.value))
  }

  /** bc_raise, with the exponent bc_num2long makes of n2; the one result out of normal form is a negative zero. */
  method RaiseTo(n1: BcNum, n2: BcNum, scale: nat) returns (r: Option<BcNum>)
    requires n1.WellFormed() && n1.len >= 1 && n2.WellFormed()
    ensures IsRaised(n1, LongOf(n2), scale, r)
    ensures n1.Valid() && r.Some? ==> r.value.Trimmed() && r.value.len >= 1
    ensures n1.Valid() && r.Some? ==>
      (!r.value.Valid() <==> n1.Int() < 0 && LongOf(n2) > 0 && LongOf(n2) % 2 == 1 && r.value.Int() == 0)
    ensures LongOf(n2) > 0 ==> r.Some? && PowerScaleIs(n1.scale, n1.scale * LongOf(n2), scale, r.value.scale)
    ensures n1.Valid() && LongOf(n2) == 1 ==> r == Some(n1)
  {
    hide P, Val, Pow, TruncDiv, LongOf;
    var exponent := Num2Long(n2);
    if exponent == 0 {
      return Some(Small(1));
    }
    var e: nat := if exponent < 0 then -exponent else exponent;
    var temp := PowerLoop(n1, e);
    PowerScaleFits(n1, e, scale);
    if exponent < 0 {
      r := Div(Small(1), temp, scale);
      NegativePower(temp, scale);
    } else {
      var rscale := PowerScale(n1, e, scale);
      CutPower(temp, rscale);
      r := Some(BcNum(temp.sign, temp.len, rscale, temp.digits[..temp.len + rscale]));
      PowerScaleOk(n1, e, scale);
      PowSign(n1.Int(), e);
      if n1.Valid() {
        CutSign(temp, rscale);
        if e == 1 {
          FirstScale(n1, scale);
          WholeNumber(temp);
          FirstIsSame(n1, temp);
        }
      }
    }
  }

  lemma {:induction false} PowSign(b: int, n: nat)
    ensures Pow(b, n) < 0 <==> b < 0 && n % 2 == 1
  {
    if n > 0 {
      PowSign(b, n - 1);
      PowNonzero(b, n - 1);
      SignOfProduct(b, Pow(b, n - 1));
    }
  }

  lemma SignOfProduct(x: int, y: int)
    ensures x * y < 0 <==> (x < 0 && y > 0) || (x > 0 && y < 0)
  {
    NegProducts(x, y);
    if x > 0 && y > 0 {
      MulMono(1, x, 1, y);
    } else if x < 0 && y < 0 {
      MulMono(1, -x, 1, -y);
    } else if x < 0 && y > 0 {
      MulMono(1, -x, 1, y);
    } else if x > 0 && y < 0 {
      MulMono(1, x, 1, -y);
    }
  }

  /** Digits cut off a number in normal form keep its sign: only a negative one can leave the normal form. */
  lemma CutSign(x: BcNum, rscale: nat)
    requires x.Valid() && rscale <= x.scale
    ensures x.len + rscale <= |x.digits|
    ensures var r := BcNum(x.sign, x.len, rscale, x.digits[..x.len + rscale]);
      r.Trimmed() && (!r.Valid() <==> x.Int() < 0 && r.Int() == 0)
  {
    hide P, Val;
    ValBound(x.digits);
  }

  lemma TenthAndThree(tenth: BcNum)
    requires tenth == BcNum(Minus, 1, 1, [0, 1])
    ensures tenth.Valid() && tenth.Int() == -1 && LongOf(Small(3)) == 3
    ensures PowerScale(tenth, 3, 0) == 1
    ensures forall r: BcNum :: r.WellFormed() && r.scale == 1 && IsCutPower(tenth, 3, r) ==> r.Int() == 0
  {
    assert [0, 1][..1] == [0] && Val([0, 1]) == 1;
    assert Small(3).digits[..1] == Small(3).digits;
    assert Pow(-1, 3) == -1 * Pow(-1, 2) && Pow(-1, 2) == -1 * Pow(-1, 1) && Pow(-1, 1) == -1 * Pow(-1, 0);
    assert P(2) == 100;
  }

  /** Minus a tenth to the third power, at scale 0, is a negative zero. */
  method NegativeZeroPower() returns (r: Option<BcNum>)
    ensures r.Some? && r.value.sign == Minus && r.value.Mag() == 0 && !r.value.Valid()
  {
    var tenth := BcNum(Minus, 1, 1, [0, 1]);
    TenthAndThree(tenth);
    hide Val, Pow, TruncDiv, LongOf;
    r := RaiseTo(tenth, Small(3), 0);
  }

  /** One divided by a number, in the units of Div. */
  lemma NegativePower(x: BcNum, scale: nat)
    ensures Small(1).Int() * P(x.scale + scale) == P(x.scale + scale)
    ensures x.Int() * P(Small(1).scale) == x.Int()
    ensures x.Mag() == 0 <==> x.Int() == 0
  {
  }

  /** A nonzero number raised to a power is nonzero, so only 0 to a negative power has no result. */
  lemma {:induction false} PowNonzero(b: int, n: nat)
    ensures Pow(b, n) == 0 <==> b == 0 && n > 0
  {
    if n > 0 {
      PowNonzero(b, n - 1);
      ProductSign(b, Pow(b, n - 1));
    }
  }

  /** The exponent as it is written, without its fraction. */
  function WholeExponent(n: BcNum): int
    requires n.WellFormed()
  {
    Signed(n.sign, WholeMag(n))
  }

  /** One is neither two to a power other than 0 nor one over such a power. */
  lemma TwoIsNotOne(e: int)
    requires e != 0
    ensures IsRaised(Small(2), 0, 0, Some(Small(1))) && !IsRaised(Small(2), e, 0, Some(Small(1)))
  {
    hide *;
    PowersOfTwo(if e > 0 then e else -e);
    RaisedMeans(Small(2), 0, Small(1));
    RaisedMeans(Small(2), e, Small(1));
  }

  lemma RaisedMeans(n: BcNum, e: int, r: BcNum)
    ensures e == 0 ==> (IsRaised(n, e, 0, Some(r)) <==> r == Small(1))
    ensures e > 0 && IsRaised(n, e, 0, Some(r)) ==> IsCutPower(n, e, r)
    ensures e < 0 && IsRaised(n, e, 0, Some(r)) ==> IsInversePower(n, -e, r)
  {
    hide Small, P, Val, Pow, IsCutPower, IsInversePower, PowerScale;
  }

  lemma PowersOfTwo(w: nat)
    requires w > 0
    ensures !IsCutPower(Small(2), w, Small(1)) && !IsInversePower(Small(2), w, Small(1))
  {
    var one, two := Small(1), Small(2);
    TwoPower(w);
    assert two.Int() == 2 && one.Int() == 1 && one.scale == 0;
    assert two.scale * w == 0 && P(0) == 1;
    hide Small, Pow, Val, P;
    QuotientsOfTwo(Pow(2, w));
  }

  lemma QuotientsOfTwo(x: int)
    requires x >= 2
    ensures TruncDiv(x, 1) == x && TruncDiv(1, x) == 0
  {
    DivUnique(x, 1, x);
    DivUnique(1, x, 0);
  }

  lemma TwoPower(w: nat)
    requires w > 0
    ensures Pow(2, w) >= 2
  {
    PowPositive(2, w - 1);
  }

  lemma LongOrWhole(n: BcNum)
    requires n.WellFormed()
    ensures LongOf(n) == if WholeMag(n) <= LONG_LIMIT then WholeExponent(n) else 0
    ensures WholeMag(n) > LONG_LIMIT ==> WholeExponent(n) != 0
  {
  }

  /** Every result raised to the exponent e is one raised to the exponent w. */
  ghost predicate RaisesAlike(e: int, w: int) {
    forall n: BcNum, scale: nat, r: Option<BcNum> :: IsRaised(n, e, scale, r) ==> IsRaised(n, w, scale, r)
  }

  lemma AlikeAt(e: int, w: int, n: BcNum, scale: nat, r: Option<BcNum>)
    requires RaisesAlike(e, w) && IsRaised(n, e, scale, r)
    ensures IsRaised(n, w, scale, r)
  {
    hide IsRaised;
  }

  lemma RaisesNotAlike(w: int)
    requires w != 0
    ensures !RaisesAlike(0, w)
  {
    hide *;
    TwoIsNotOne(w);
    if RaisesAlike(0, w) {
      AlikeAt(0, w, Small(2), 0, Some(Small(1)));
    }
  }

  /**
   For every base and scale bc_raise raises to the exponent that is written, if and only if the integer part of
   that exponent is not too large.
   */
  lemma TooLargeExponent(n2: BcNum)
    requires n2.WellFormed()
    ensures RaisesAlike(LongOf(n2), WholeExponent(n2)) <==> WholeMag(n2) <= 134_217_729
  {
    LongOrWhole(n2);
    if WholeMag(n2) > LONG_LIMIT {
      RaisesNotAlike(WholeExponent(n2));
    }
    hide IsRaised, LongOf, WholeExponent, WholeMag, P, Val, Pow;
  }
}
