/**
 Arbitrary-precision decimal numbers: a sign, `len` integer digits and `scale`
 fraction digits, most significant first (include/number.h).
 */
module Number {
  import opened Arith
  import opened Digits

  datatype Sign = Plus | Minus

  datatype BcNum = BcNum(sign: Sign, len: nat, scale: nat, digits: seq<int>)
  {
    /** The buffer holds len + scale decimal digits. */
    predicate WellFormed() {
      |digits| == len + scale && IsDigits(digits)
    }

    /** No leading zero that could be dropped; the empty string is a legal part of a product. */
    predicate Trimmed() {
      && WellFormed()
      && (len > 1 ==> digits[0] != 0)
      && (len == 0 ==> scale == 0)
    }

    /** What every public operation hands back: normal form, and zero is positive. */
    predicate Valid() {
      Trimmed() && len >= 1 && (Val(digits) == 0 ==> sign == Plus)
    }

    /** Magnitude in units of 10^-scale. */
    function Mag(): int {
      Val(digits)
    }

    /** The number in units of 10^-scale. */
    function Int(): int {
      if sign == Plus then Mag() else -Mag()
    }

    /** The magnitude in units of 10^-s. */
    function MagAt(s: nat): int
      requires s >= scale
    {
      Mag() * P(s - scale)
    }

    /** The number in units of 10^-s. */
    function At(s: nat): int
      requires s >= scale
    {
      Int() * P(s - scale)
    }

    /** The number itself. */
    ghost function Value(): real {
      Int() as real / P(scale) as real
    }
  }

  /** The one-digit integer d, as _zero_, _one_ and _two_ are set up. */
  function Small(d: nat): (n: BcNum)
    requires d <= 9
    ensures n.Valid() && n.Int() == d && n.scale == 0
  {
    ValSingle(d);
    BcNum(Plus, 1, 0, [d])
  }

  lemma AtSigned(n: BcNum, s: nat)
    requires s >= n.scale
    ensures n.At(s) == if n.sign == Plus then n.MagAt(s) else -n.MagAt(s)
  {
  }

  lemma MagBound(n: BcNum)
    requires n.WellFormed()
    ensures 0 <= n.Mag() < P(n.len + n.scale)
  {
    ValBound(n.digits);
  }

  lemma MagAtNonneg(n: BcNum, s: nat)
    requires n.WellFormed() && s >= n.scale
    ensures n.MagAt(s) >= 0
    ensures n.MagAt(s) == 0 <==> n.Mag() == 0
  {
    MagBound(n);
    if n.Mag() > 0 {
      MulMono(1, n.Mag(), 1, P(s - n.scale));
    }
  }

  /** Rescaling composes. */
  lemma AtAt(n: BcNum, s: nat, t: nat)
    requires n.scale <= s <= t
    ensures n.MagAt(t) == n.MagAt(s) * P(t - s)
    ensures n.At(t) == n.At(s) * P(t - s)
  {
    PAdd(s - n.scale, t - s);
    MulAssoc(n.Mag(), P(s - n.scale), P(t - s));
    MulAssoc(n.Int(), P(s - n.scale), P(t - s));
  }

  /** At is the value in units of 10^-s. */
  lemma AtIsValue(n: BcNum, s: nat)
    requires s >= n.scale
    ensures n.Value() == n.At(s) as real / P(s) as real
  {
    var p, q := P(n.scale), P(s - n.scale);
    PAdd(s - n.scale, n.scale);
    IntRatioScale(n.Int(), p, q);
  }

  lemma RealProduct(a: int, b: int)
    ensures (a * b) as real == a as real * b as real
  {
  }

  lemma RatioScale(x: real, p: real, q: real)
    requires p > 0.0 && q > 0.0
    ensures q * p > 0.0 && (x * q) / (q * p) == x / p
  {
    var r := x / p;
    assert r * p == x;
    assert x * q == r * (q * p);
  }

  lemma IntRatioScale(x: int, p: int, q: int)
    requires p > 0 && q > 0
    ensures q * p > 0 && (x * q) as real / (q * p) as real == x as real / p as real
  {
    RealProduct(x, q);
    RealProduct(q, p);
    RatioScale(x as real, p as real, q as real);
  }

  /** Numbers without superfluous zeros of one scale are determined by sign and value. */
  lemma SameNumber(m: BcNum, n: BcNum)
    requires m.Trimmed() && m.len >= 1 && n.Trimmed() && n.len >= 1 && m.scale == n.scale
    requires m.Int() == n.Int() && m.sign == n.sign
    ensures m == n
  {
    hide P, Val;
    MagBound(m);
    MagBound(n);
    if m.len != n.len {
      var big, small := if m.len > n.len then m else n, if m.len > n.len then n else m;
      ValLeading(big.digits);
      PMono(small.len + small.scale, |big.digits| - 1);
      MulMono(1, big.digits[0], P(|big.digits| - 1), P(|big.digits| - 1));
    } else {
      ValInjective(m.digits, n.digits);
    }
  }

  /** bc_is_zero: does every digit vanish? */
  method IsZero(n: BcNum) returns (z: bool)
    requires n.WellFormed()
    ensures z <==> n.Mag() == 0
  {
    var count, i := n.len + n.scale, 0;
    while count > 0 && n.digits[i] == 0
      invariant count + i == n.len + n.scale && 0 <= count
      invariant forall k :: 0 <= k < i ==> n.digits[k] == 0
    {
      i := i + 1;
      count := count - 1;
    }
    z := count == 0;
    ValZeroIff(n.digits);
  }

  /** _bc_rm_leading_zeros: skip leading zeros while an integer digit remains after them. */
  method RmLeadingZeros(n: BcNum) returns (r: BcNum)
    requires n.WellFormed() && (n.len == 0 ==> n.scale == 0)
    ensures r.Trimmed() && r.Mag() == n.Mag()
    ensures r.sign == n.sign && r.scale == n.scale
    ensures r.len <= n.len && (r.len == 0 <==> n.len == 0)
  {
    var len, i := n.len, 0;
    while len > 1 && n.digits[i] == 0
      invariant 0 <= len && len + i == n.len && (len == 0 <==> n.len == 0) && 0 <= i <= n.len
      invariant forall k :: 0 <= k < i ==> n.digits[k] == 0
    {
      i := i + 1;
      len := len - 1;
    }
    r := BcNum(n.sign, len, n.scale, n.digits[i..]);
    ValSplit(n.digits, i);
    ValZeros(n.digits[..i]);
  }
}
