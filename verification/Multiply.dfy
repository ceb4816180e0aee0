/** bc_multiply: the product truncated to the scale bc prescribes. */
module Multiply {
  import opened Arith
  import opened Digits
  import opened Number
  import opened AddSub
  import opened Karatsuba

  function ProductScale(n1: BcNum, n2: BcNum, scale: nat): nat {
    Min(n1.scale + n2.scale, Max(scale, Max(n1.scale, n2.scale)))
  }

  /** The product, truncated toward zero: all decimals, or as many as are asked for or an operand has. */
  method Mul(n1: BcNum, n2: BcNum, scale: nat) returns (r: BcNum)
    requires n1.WellFormed() && n2.WellFormed() && n1.len >= 1 && n2.len >= 1
    ensures r.Valid() && r.scale == ProductScale(n1, n2, scale)
    ensures r.Int() == TruncDiv(n1.Int() * n2.Int(), P(n1.scale + n2.scale - r.scale))
    ensures r.scale == n1.scale + n2.scale ==> r.Int() == n1.Int() * n2.Int()
    ensures n1.scale <= r.scale <= n1.scale + n2.scale && n2.scale <= r.scale
    ensures r.scale < n1.scale + n2.scale ==> scale <= r.scale
    ensures r.scale in {n1.scale + n2.scale, scale, n1.scale, n2.scale}
    ensures r.scale == n1.scale + n2.scale ==> Max(scale, Max(n1.scale, n2.scale)) >= n1.scale + n2.scale
    ensures n1.scale == 0 || n2.scale == 0 ==> r.Int() == n1.Int() * n2.Int()
  {
    hide P, Val;
    var full, prodScale := n1.scale + n2.scale, ProductScale(n1, n2, scale);
    var pval := RecMul(n1.digits, n2.digits);
    var sign := if n1.sign == n2.sign then Plus else Minus;
    var len := |n1.digits| + |n2.digits| + 1 - full;
    ValPrefix(pval.digits, len + prodScale);
    r := RmLeadingZeros(BcNum(sign, len, prodScale, pval.digits[..len + prodScale]));
    var z := IsZero(r);
    if z {
      r := r.(sign := Plus);
    }
    MagBound(n1);
    MagBound(n2);
    SignedQuotient(n1.sign, n1.Mag(), n2.sign, n2.Mag(), P(full - prodScale));
    POfZero();
  }

  lemma POfZero()
    ensures P(0) == 1
  {
  }

  /** Sign and magnitude of a truncated quotient of a product. */
  lemma SignedQuotient(s1: Sign, x: nat, s2: Sign, y: nat, d: nat)
    requires d >= 1
    ensures x * y >= 0
    ensures TruncDiv(Signed(s1, x) * Signed(s2, y), d) == if s1 == s2 then x * y / d else -(x * y / d)
    ensures d == 1 ==> x * y / d == x * y
    ensures Signed(s1, x) * Signed(s2, y) == if s1 == s2 then x * y else -(x * y)
  {
    MulMono(0, x, 0, y);
    SignedProduct(s1, x, s2, y);
  }
}
