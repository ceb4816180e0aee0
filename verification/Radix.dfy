/** bc_int2num and bc_out_num: printing a number in another base. */
module Radix {
  import opened Arith
  import opened Digits
  import opened Number
  import opened AddSub
  import opened Multiply
  import opened Divide
  import opened DivMod
  import opened Raise

  /** The number a digit string denotes in base b. */
  function Horner(b: int, s: seq<int>): int
  {
    if s == [] then 0 else b * Horner(b, s[..|s| - 1]) + s[|s| - 1]
  }

  lemma {:induction false} HornerTenIsVal(s: seq<int>)
    ensures Horner(10, s) == Val(s)
  {
    if s != [] {
      HornerTenIsVal(s[..|s| - 1]);
    }
  }

  lemma HornerSnoc(b: int, s: seq<int>, d: int)
    ensures Horner(b, s + [d]) == b * Horner(b, s) + d
  {
    assert (s + [d])[..|s|] == s;
  }

  predicate InBase(b: int, s: seq<int>) {
    forall i :: 0 <= i < |s| ==> 0 <= s[i] < b
  }

  /** The digits of w in base b, without leading zeros. */
  function DigitsOf(w: int, b: int): seq<int>
    requires b >= 2 && w >= 0
    decreases w
  {
    if w == 0 then [] else SmallerQuotient(w, b); DigitsOf(w / b, b) + [w % b]
  }

  lemma SmallerQuotient(w: int, b: int)
    requires w > 0 && b >= 2
    ensures 0 <= w / b < w
  {
    DivBracket(w, b);
    if w / b >= w {
      MulMono(w, w / b, 2, b);
    }
  }

  /** They denote w, stay in range and start with a nonzero digit. */
  lemma {:induction false} DigitsOfDenote(w: int, b: int)
    requires b >= 2 && w >= 0
    ensures Horner(b, DigitsOf(w, b)) == w && InBase(b, DigitsOf(w, b))
    ensures w > 0 ==> DigitsOf(w, b) != [] && DigitsOf(w, b)[0] > 0
    decreases w
  {
    if w > 0 {
      hide Horner;
      SmallerQuotient(w, b);
      DigitsOfDenote(w / b, b);
      HornerSnoc(b, DigitsOf(w / b, b), w % b);
      assert w == b * (w / b) + w % b;
      assert w / b == 0 ==> w % b > 0;
    } else {
      assert Horner(b, []) == 0;
    }
  }

  /** The digits bc_num2long lets through. */
  function Clip(s: seq<int>): (c: seq<int>)
    ensures |c| == |s|
  {
    seq(|s|, i requires 0 <= i < |s| => if s[i] <= LONG_LIMIT then s[i] else 0)
  }

  /** bc_int2num. */
  method Int2Num(v: int) returns (r: BcNum)
    ensures r.Valid() && r.scale == 0 && r.Int() == v
  {
    var rest: int := if v < 0 then -v else v;
    var digits := [rest % 10];
    rest := rest / 10;
    ValSingle(digits[0]);
    assert P(1) == 10 * P(0);
    while rest != 0
      invariant rest >= 0 && IsDigits(digits) && |digits| >= 1
      invariant Val(digits) + rest * P(|digits|) == Abs(v)
      invariant rest == 0 && |digits| > 1 ==> digits[0] != 0
    {
      ValCons(rest % 10, digits);
      LastDigitOff(rest, P(|digits|));
      digits := [rest % 10] + digits;
      rest := rest / 10;
    }
    r := BcNum(if v < 0 then Minus else Plus, |digits|, 0, digits);
  }

  lemma LastDigitOff(x: int, p: int)
    ensures x % 10 * p + x / 10 * (10 * p) == x * p
  {
    assert x == x % 10 + 10 * (x / 10);
    MulDist(p, x % 10, 10 * (x / 10));
  }

  /** The magnitude of the fraction in units of 10^-scale. */
  function FracMag(n: BcNum): int
    requires n.WellFormed()
  {
    Val(n.digits[n.len..])
  }

  lemma WholeAndFraction(n: BcNum)
    requires n.WellFormed()
    ensures n.Mag() == WholeMag(n) * P(n.scale) + FracMag(n)
    ensures WholeMag(n) >= 0 && 0 <= FracMag(n) < P(n.scale)
    ensures WholeMag(n) == n.Mag() / P(n.scale) && FracMag(n) == n.Mag() % P(n.scale)
  {
    hide P, Val;
    ValSplit(n.digits, n.len);
    ValBound(n.digits[n.len..]);
    ValBound(n.digits[..n.len]);
    DivUnique(n.Mag(), P(n.scale), WholeMag(n));
    var p, q := P(n.scale), n.Mag() / P(n.scale);
    assert n.Mag() == p * q + n.Mag() % p;
  }

  /** Every prefix of frac is the fraction f / u cut off at that many places of base b. */
  ghost predicate IsFraction(b: int, f: int, u: int, frac: seq<int>)
    requires u > 0
  {
    InBase(b, frac) && forall j :: 0 <= j <= |frac| ==> Horner(b, frac[..j]) == f * Pow(b, j) / u
  }

  /** k is the least number of places of base b worth s decimals. */
  ghost predicate EnoughPlaces(b: int, s: nat, k: nat) {
    if s == 0 then k == 0 else Pow(b, k) >= P(s) && forall j: nat :: j < k ==> Pow(b, j) < P(s)
  }

  /** What bc_out_num prints in base b, when its machine integers can hold the digits. */
  ghost predicate IsExpansion(n: BcNum, b: int, ints: seq<int>, frac: seq<int>)
    requires n.WellFormed()
  {
    && InBase(b, ints) && Horner(b, ints) == WholeMag(n) && (ints != [] ==> ints[0] != 0)
    && IsFraction(b, FracMag(n), P(n.scale), frac) && EnoughPlaces(b, n.scale, |frac|)
  }

  /** One more place of a fraction. */
  lemma FractionStep(b: int, f: int, u: int, frac: seq<int>, d: int)
    requires b >= 2 && u > 0 && 0 <= f < u && IsFraction(b, f, u, frac)
    requires d == f * Pow(b, |frac|) % u * b / u
    ensures IsFraction(b, f, u, frac + [d])
    ensures f * Pow(b, |frac| + 1) % u == f * Pow(b, |frac|) % u * b % u
  {
    hide Horner;
    var x := f * Pow(b, |frac|);
    assert frac[..|frac|] == frac;
    NextPlace(x, u, b);
    MulAssoc(f, Pow(b, |frac|), b);
    assert f * Pow(b, |frac| + 1) == x * b;
    PlaceInBase(x % u, u, b);
    HornerSnoc(b, frac, d);
    forall j | 0 <= j <= |frac| + 1 ensures Horner(b, (frac + [d])[..j]) == f * Pow(b, j) / u {
      if j <= |frac| {
        assert (frac + [d])[..j] == frac[..j];
      } else {
        assert (frac + [d])[..j] == frac + [d];
      }
    }
  }

  lemma NextPlace(x: int, u: int, b: int)
    requires u > 0
    ensures x * b / u == b * (x / u) + x % u * b / u && x * b % u == x % u * b % u
  {
    var q, r := x / u, x % u;
    var y := r * b;
    assert x == q * u + r;
    assert x * b == (b * q) * u + y by {
      MulDist(b, q * u, r);
      assert q * u * b == b * q * u;
    }
    DivBracket(y, u);
    MulDist(u, b * q, y / u);
    DivUnique(x * b, u, b * q + y / u);
    assert y == y / u * u + y % u;
    assert x * b == x * b / u * u + x * b % u;
  }

  lemma PlaceInBase(r: int, u: int, b: int)
    requires 0 <= r < u && b >= 1
    ensures 0 <= r * b / u < b
  {
    MulMono(0, r, 0, b);
    MulLe(r + 1, u, b);
    MulDist(b, r, 1);
    DivBracket(r * b, u);
    MulCancelLt(r * b / u, b, u);
    MulCancelLt(-1, r * b / u, u);
  }

  lemma ClipSnoc(s: seq<int>, d: int)
    ensures Clip(s + [d]) == Clip(s) + [if d <= LONG_LIMIT then d else 0]
  {
  }

  /** Clipping changes nothing when every digit fits. */
  lemma ClipFits(s: seq<int>, b: int)
    requires InBase(b, s) && b <= LONG_LIMIT + 1
    ensures Clip(s) == s
  {
  }

  /** num modulo base and num over base, for a nonnegative integer. */
  method PeelDigit(n: BcNum, base: BcNum) returns (digit: int, rest: BcNum)
    requires n.Valid() && base.Valid() && n.scale == 0 && base.scale == 0 && n.Int() >= 0 && base.Int() >= 2
    ensures rest.Valid() && rest.scale == 0 && rest.Int() == n.Int() / base.Int()
    ensures digit == if n.Int() % base.Int() <= LONG_LIMIT then n.Int() % base.Int() else 0
  {
    hide P, Val;
    var cur := Modulo(n, base, 0);
    ghost var q :| IsDivMod(n, base, 0, q, cur.value);
    IntegerDivMod(n, base, q, cur.value);
    PositiveRem(n.Int(), base.Int());
    digit := Num2Long(cur.value);
    WholeOfInteger(cur.value);
    var d := Div(n, base, 0);
    rest := d.value;
    UnitPower();
  }

  lemma PositiveRem(x: int, d: int)
    requires x >= 0 && d > 0
    ensures TruncRem(x, d) == x % d && TruncDiv(x, d) == x / d && 0 <= x % d
  {
    assert x == d * (x / d) + x % d;
  }

  lemma WholeOfInteger(n: BcNum)
    requires n.WellFormed() && n.scale == 0
    ensures WholeMag(n) == n.Mag()
    ensures n.Int() >= 0 ==> LongOf(n) == if n.Int() <= LONG_LIMIT then n.Int() else 0
  {
    assert n.digits[..n.len] == n.digits;
    ValBound(n.digits);
  }

  /** The loop that stacks the digits of the integer part. */
  method IntDigits(whole: BcNum, base: BcNum) returns (digits: seq<int>)
    requires whole.Valid() && base.Valid() && whole.scale == 0 && base.scale == 0 && whole.Int() >= 0 && base.Int() >= 2
    ensures digits == Clip(DigitsOf(whole.Int(), base.Int()))
  {
    hide P, Val;
    var rest := whole;
    digits := [];
    ghost var b, all := base.Int(), Clip(DigitsOf(whole.Int(), base.Int()));
    var done := IsZero(rest);
    while !done
      invariant rest.Valid() && rest.scale == 0 && rest.Int() >= 0
      invariant done <==> rest.Mag() == 0
      invariant all == Clip(DigitsOf(rest.Int(), b)) + digits
      decreases rest.Int()
    {
      ghost var w := rest.Int();
      SmallerQuotient(w, b);
      ClipSnoc(DigitsOf(w / b, b), w % b);
      var digit;
      digit, rest := PeelDigit(rest, base);
      digits := [digit] + digits;
      done := IsZero(rest);
    }
  }

  /** A fraction in [0, 1) of the given scale. */
  ghost predicate ProperFraction(n: BcNum, scale: nat) {
    n.Valid() && n.scale == scale && n.sign == Plus && n.Int() < P(scale)
  }

  /** frac * base at the scale of num loses nothing; its whole part is the next digit. */
  method NextDigit(frac: BcNum, base: BcNum, scale: nat) returns (digit: int, rest: BcNum)
    requires frac.Valid() && frac.scale == scale && base.Valid() && base.scale == 0 && base.Int() >= 2
    ensures rest.Valid() && rest.scale == scale
    ensures ProperFraction(frac, scale) && base.Int() <= LONG_LIMIT + 1 ==> ProperFraction(rest, scale)
    ensures ProperFraction(frac, scale) && base.Int() <= LONG_LIMIT + 1 ==>
      digit == frac.Int() * base.Int() / P(scale) && rest.Int() == frac.Int() * base.Int() % P(scale)
  {
    hide P, Val;
    var x := Mul(frac, base, scale);
    digit := Num2Long(x);
    var whole := Int2Num(digit);
    rest := Sub(x, whole, 0);
    if ProperFraction(frac, scale) && base.Int() <= LONG_LIMIT + 1 {
      DigitFits(frac, base, x);
      SubtractWhole(x, whole, rest);
    }
  }

  /** A digit of a base that is not too large fits a machine integer. */
  lemma DigitFits(frac: BcNum, base: BcNum, x: BcNum)
    requires ProperFraction(frac, frac.scale) && base.Valid() && 2 <= base.Int() <= LONG_LIMIT + 1
    requires x.Valid() && x.scale == frac.scale && x.Int() == frac.Int() * base.Int()
    ensures x.Int() >= 0 && LongOf(x) == x.Int() / P(x.scale)
  {
    hide P, Val;
    MagBound(frac);
    MagBound(x);
    MulMono(0, frac.Int(), 0, base.Int());
    WholeAndFraction(x);
    PlaceInBase(frac.Int(), P(x.scale), base.Int());
  }

  /** Taking the whole part off leaves the fraction. */
  lemma SubtractWhole(x: BcNum, whole: BcNum, rest: BcNum)
    requires x.Valid() && x.Int() >= 0 && whole.scale == 0 && rest.Valid() && rest.scale == x.scale
    requires whole.Int() == x.Int() / P(x.scale) && rest.Int() == x.At(x.scale) - whole.At(x.scale)
    ensures rest.Int() == x.Int() % P(x.scale) && 0 <= rest.Int() < P(x.scale) && rest.sign == Plus
  {
    hide P, Val;
    UnitPower();
    MagBound(rest);
    var y, p := x.Int(), P(x.scale);
    assert y == p * (y / p) + y % p;
  }

  /** How long a power of the base is in decimal tells how large it is. */
  lemma LengthIsSize(n: BcNum, s: nat)
    requires n.Valid() && n.scale == 0 && n.Int() >= 1 && s >= 1
    ensures n.len <= s <==> n.Int() < P(s)
  {
    hide P, Val;
    MagBound(n);
    if n.len <= s {
      PMono(n.len, s);
    } else {
      ValLeading(n.digits);
      PMono(s, n.len - 1);
      MulMono(1, n.digits[0], P(n.len - 1), P(n.len - 1));
    }
  }

  /** What the fraction loop keeps when the base is not too large. */
  ghost predicate Placing(f: int, b: int, scale: nat, frac: BcNum, digits: seq<int>)
  {
    && ProperFraction(frac, scale)
    && IsFraction(b, f, P(scale), digits) && frac.Int() == f * Pow(b, |digits|) % P(scale)
  }

  lemma PlacingStep(f: int, b: int, scale: nat, frac: BcNum, digits: seq<int>, digit: int, rest: BcNum)
    requires b >= 2 && 0 <= f < P(scale) && Placing(f, b, scale, frac, digits) && ProperFraction(rest, scale)
    requires digit == frac.Int() * b / P(scale) && rest.Int() == frac.Int() * b % P(scale)
    ensures Placing(f, b, scale, rest, digits + [digit])
  {
    hide P, Val, Pow, IsFraction;
    FractionStep(b, f, P(scale), digits, digit);
  }

  /** The loop that prints the places of the fraction. */
  method FracDigits(fraction: BcNum, base: BcNum, scale: nat) returns (digits: seq<int>)
    requires ProperFraction(fraction, scale) && scale > 0
    requires base.Valid() && base.scale == 0 && base.Int() >= 2
    ensures base.Int() <= LONG_LIMIT + 1 ==> IsFraction(base.Int(), fraction.Int(), P(scale), digits)
    ensures EnoughPlaces(base.Int(), scale, |digits|)
  {
    hide P, Val, Horner, Pow, Placing;
    var frac, tNum := fraction, Small(1);
    ghost var f, b, fits := fraction.Int(), base.Int(), base.Int() <= LONG_LIMIT + 1;
    digits := [];
    StartPlacing(b, scale, fraction);
    while tNum.len <= scale
      invariant frac.Valid() && frac.scale == scale
      invariant tNum.Valid() && tNum.scale == 0 && tNum.Int() == Pow(b, |digits|) >= 1
      invariant fits ==> Placing(f, b, scale, frac, digits)
      invariant forall j: nat :: j < |digits| ==> Pow(b, j) < P(scale)
      decreases P(scale) - tNum.Int()
    {
      LengthIsSize(tNum, scale);
      var digit, rest := NextDigit(frac, base, scale);
      if fits {
        PlacingFacts(f, b, scale, frac, digits);
        PlacingStep(f, b, scale, frac, digits, digit, rest);
      }
      frac := rest;
      GrowPower(b, |digits|);
      digits := digits + [digit];
      tNum := Mul(tNum, base, 0);
    }
    LengthIsSize(tNum, scale);
    if fits {
      PlacingFacts(f, b, scale, frac, digits);
    }
  }

  lemma PlacingFacts(f: int, b: int, scale: nat, frac: BcNum, digits: seq<int>)
    requires Placing(f, b, scale, frac, digits)
    ensures ProperFraction(frac, scale) && IsFraction(b, f, P(scale), digits)
  {
  }

  lemma StartPlacing(b: int, scale: nat, fraction: BcNum)
    requires ProperFraction(fraction, scale)
    ensures Placing(fraction.Int(), b, scale, fraction, []) && Pow(b, 0) == 1
    ensures 0 <= fraction.Int() < P(scale)
  {
    MagBound(fraction);
    StartFraction(b, fraction.Int(), P(scale));
  }

  lemma StartFraction(b: int, f: int, u: int)
    requires 0 <= f < u
    ensures IsFraction(b, f, u, []) && f == f * Pow(b, 0) % u && Pow(b, 0) == 1
  {
    assert f * 1 == f;
    DivUnique(f, u, 0);
    assert f == u * (f / u) + f % u;
    var none: seq<int> := [];
    assert none[..0] == none;
  }

  lemma GrowPower(b: int, n: nat)
    requires b >= 2
    ensures Pow(b, n + 1) == Pow(b, n) * b && Pow(b, n + 1) > Pow(b, n) >= 1
  {
    PowPositive(b, n);
    MulMono(2, b, Pow(b, n), Pow(b, n));
  }

  /** The places of the fraction in base 10 are its digits. */
  lemma TenthPlaces(n: BcNum)
    requires n.WellFormed()
    ensures IsFraction(10, FracMag(n), P(n.scale), n.digits[n.len..]) && EnoughPlaces(10, n.scale, n.scale)
  {
    hide P, Val, Horner, Pow;
    var frac := n.digits[n.len..];
    forall j | 0 <= j <= |frac| ensures Horner(10, frac[..j]) == FracMag(n) * Pow(10, j) / P(n.scale) {
      HornerTenIsVal(frac[..j]);
      ValPrefix(frac, j);
      PIsPow(j);
      PAdd(n.scale - j, j);
      DivScale(FracMag(n), P(n.scale - j), P(j));
    }
    forall j: nat | j <= n.scale ensures Pow(10, j) == P(j) && (j < n.scale ==> P(j) < P(n.scale)) {
      PIsPow(j);
      if j < n.scale {
        PMonoStrict(j, n.scale);
      }
    }
  }

  /** The fast way for base 10. */
  method OutTen(num: BcNum) returns (ints: seq<int>, frac: seq<int>)
    requires num.Trimmed() && num.len >= 1
    ensures IsExpansion(num, 10, ints, frac)
  {
    ints := if num.len > 1 || num.digits[0] != 0 then num.digits[..num.len] else [];
    frac := num.digits[num.len..];
    TenthPlaces(num);
    HornerTenIsVal(ints);
    if ints == [] {
      ZeroWhole(num.digits[..num.len]);
    }
  }

  lemma ZeroWhole(s: seq<int>)
    requires |s| == 1 && s[0] == 0
    ensures Val(s) == 0
  {
    ValZeros(s);
  }

  /** The slow way for the other bases: integer part by division, fraction by multiplication. */
  method OutOther(num: BcNum, oBase: int) returns (ints: seq<int>, frac: seq<int>)
    requires num.Trimmed() && num.len >= 1 && oBase >= 2
    ensures ints == Clip(DigitsOf(WholeDigits(num), oBase))
    ensures EnoughPlaces(oBase, num.scale, |frac|)
    ensures oBase <= LONG_LIMIT + 1 ==> IsFraction(oBase, FracMag(num), P(num.scale), frac)
  {
    hide P, Val, Horner, Pow;
    var q := Div(num, Small(1), 0);
    var rest := Sub(num, q.value, 0);
    WholeAndFraction(num);
    SplitParts(num, q.value, rest);
    var whole, fraction := q.value.(sign := Plus), rest.(sign := Plus);
    var base := Int2Num(oBase);
    ints := IntDigits(whole, base);
    frac := [];
    StartFraction(oBase, FracMag(num), P(num.scale));
    if num.scale > 0 {
      frac := FracDigits(fraction, base, num.scale);
    }
  }

  function WholeDigits(n: BcNum): nat
    requires n.WellFormed()
  {
    WholeAndFraction(n);
    WholeMag(n)
  }

  /** num = int_part + frac_part, each with the sign dropped. */
  lemma SplitParts(num: BcNum, whole: BcNum, rest: BcNum)
    requires num.WellFormed() && whole.Valid() && whole.scale == 0 && rest.Trimmed() && rest.len >= 1
    requires rest.scale == num.scale
    requires Small(1).Int() * P(num.scale) != 0
    requires whole.Int() == TruncDiv(num.Int() * P(Small(1).scale + 0), Small(1).Int() * P(num.scale))
    requires rest.Int() == num.At(num.scale) - whole.At(num.scale)
    ensures whole.(sign := Plus).Valid() && whole.(sign := Plus).Int() == WholeMag(num)
    ensures ProperFraction(rest.(sign := Plus), num.scale) && rest.(sign := Plus).Int() == FracMag(num)
  {
    hide P, Val;
    UnitPower();
    WholeAndFraction(num);
    MagBound(whole);
    MagBound(rest);
    NegProducts(whole.Mag(), P(num.scale));
    assert num.Mag() == WholeMag(num) * P(num.scale) + FracMag(num);
  }

  /** bc_out_num: the sign, the digits before and after the point, in base oBase. */
  method OutNum(num: BcNum, oBase: int) returns (neg: bool, ints: seq<int>, point: bool, frac: seq<int>)
    requires num.Trimmed() && num.len >= 1 && oBase >= 2
    ensures neg <==> num.sign == Minus
    ensures num.Mag() == 0 ==> ints == [0] && !point && frac == []
    ensures num.Mag() != 0 ==> (point <==> num.scale > 0)
    ensures num.Mag() != 0 && oBase <= LONG_LIMIT + 1 ==> IsExpansion(num, oBase, ints, frac)
    ensures num.Mag() != 0 && oBase > LONG_LIMIT + 1 ==> ints == Clip(DigitsOf(WholeDigits(num), oBase))
  {
    hide P, Val, Horner, Pow;
    neg := num.sign == Minus;
    var zero := IsZero(num);
    if zero {
      ints, point, frac := [0], false, [];
      return;
    }
    point := num.scale > 0;
    if oBase == 10 {
      ints, frac := OutTen(num);
    } else {
      ints, frac := OutOther(num, oBase);
      DigitsOfDenote(WholeDigits(num), oBase);
      if oBase <= LONG_LIMIT + 1 {
        ClipFits(DigitsOf(WholeDigits(num), oBase), oBase);
        NoLeadingZero(WholeDigits(num), oBase);
      }
    }
  }

  lemma NoLeadingZero(w: int, b: int)
    requires w >= 0 && b >= 2
    ensures DigitsOf(w, b) != [] ==> DigitsOf(w, b)[0] != 0
  {
    DigitsOfDenote(w, b);
  }

  /** Integers print right in base b for every number exactly when every digit of b fits a machine integer. */
  lemma BasesThatPrint(b: int)
    requires b >= 2
    ensures (forall w: nat :: Horner(b, Clip(DigitsOf(w, b))) == w) <==> b <= 134_217_730
  {
    if b <= LONG_LIMIT + 1 {
      forall w: nat ensures Horner(b, Clip(DigitsOf(w, b))) == w {
        DigitsOfDenote(w, b);
        ClipFits(DigitsOf(w, b), b);
      }
    } else {
      var w := LONG_LIMIT + 1;
      OneDigit(w, b);
      assert Clip([w]) == [0];
      HornerSnoc(b, [], 0);
    }
  }

  lemma OneDigit(w: int, b: int)
    requires 0 < w < b && b >= 2
    ensures DigitsOf(w, b) == [w]
  {
    DivUnique(w, b, 0);
    assert w == b * (w / b) + w % b;
    assert DigitsOf(0, b) == [];
  }
}
