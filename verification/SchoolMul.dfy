/** _bc_simp_mul: column-by-column schoolbook multiplication. */
module SchoolMul {
  import opened Arith
  import opened Digits
  import opened Number

  /** The digit of weight 10^j, and zero beyond either end. */
  function DigitAt(s: seq<int>, j: int): int {
    if 0 <= j < |s| then s[|s| - 1 - j] else 0
  }

  /** Column c of the product: all a_i * b_j with i + j == c. */
  ghost function Conv(a: seq<int>, b: seq<int>, c: int): int {
    if a == [] then 0 else a[0] * DigitAt(b, c - (|a| - 1)) + Conv(a[1..], b, c)
  }

  /** The first n columns, weighted. */
  ghost function Columns(a: seq<int>, b: seq<int>, n: nat): int {
    if n == 0 then 0 else Columns(a, b, n - 1) + Conv(a, b, n - 1) * P(n - 1)
  }

  /** The weighted digits of b shifted left by m, below weight 10^n. */
  ghost function Shifted(b: seq<int>, m: nat, n: nat): int {
    if n == 0 then 0 else Shifted(b, m, n - 1) + DigitAt(b, n - 1 - m) * P(n - 1)
  }

  lemma {:induction false} ColumnsStep(a: seq<int>, b: seq<int>, n: nat)
    requires a != []
    ensures Columns(a, b, n) == a[0] * Shifted(b, |a| - 1, n) + Columns(a[1..], b, n)
  {
    if n > 0 {
      ColumnsStep(a, b, n - 1);
      var p, d := P(n - 1), DigitAt(b, n - 1 - (|a| - 1));
      Distribute(a[0], Shifted(b, |a| - 1, n - 1), d, p, Conv(a[1..], b, n - 1));
    }
  }

  lemma Distribute(x: int, s: int, d: int, p: int, c: int)
    ensures x * (s + d * p) + c * p == x * s + (x * d + c) * p
  {
    MulDist(x, s, d * p);
    MulAssoc(x, d, p);
    MulDist(p, x * d, c);
  }

  /** Below weight 10^(m+k) the shifted b shows its k low digits. */
  lemma {:induction false} ShiftedLow(b: seq<int>, m: nat, k: nat)
    requires k <= |b|
    ensures Shifted(b, m, m + k) == Val(b[|b| - k..]) * P(m)
  {
    if k > 0 {
      ShiftedLow(b, m, k - 1);
      var i := |b| - k;
      assert b[i..] == [b[i]] + b[i + 1..];
      ValCons(b[i], b[i + 1..]);
      PAdd(k - 1, m);
      MulAssoc(b[i], P(k - 1), P(m));
      MulDist(P(m), b[i] * P(k - 1), Val(b[i + 1..]));
    } else {
      ShiftedNothing(b, m, m);
    }
  }

  lemma {:induction false} ShiftedNothing(b: seq<int>, m: nat, n: nat)
    requires n <= m
    ensures Shifted(b, m, n) == 0
  {
    if n > 0 {
      ShiftedNothing(b, m, n - 1);
    }
  }

  lemma {:induction false} ShiftedAll(b: seq<int>, m: nat, n: nat)
    requires n >= m + |b|
    ensures Shifted(b, m, n) == Val(b) * P(m)
  {
    if n == m + |b| {
      ShiftedLow(b, m, |b|);
      assert b[0..] == b;
    } else {
      ShiftedAll(b, m, n - 1);
    }
  }

  /** All columns together are the product. */
  lemma {:induction false} ColumnsAreProduct(a: seq<int>, b: seq<int>, n: nat)
    requires n >= |a| + |b|
    ensures Columns(a, b, n) == Val(a) * Val(b)
  {
    if a == [] {
      EmptyColumns(b, n);
    } else {
      hide P, Val, Columns, Shifted;
      ColumnsStep(a, b, n);
      ShiftedAll(b, |a| - 1, n);
      ColumnsAreProduct(a[1..], b, n);
      assert a == [a[0]] + a[1..];
      ValCons(a[0], a[1..]);
      MulDist(Val(b), a[0] * P(|a| - 1), Val(a[1..]));
      MulAssoc(a[0], P(|a| - 1), Val(b));
    }
  }

  lemma {:induction false} EmptyColumns(b: seq<int>, n: nat)
    ensures Columns([], b, n) == 0
  {
    if n > 0 {
      EmptyColumns(b, n - 1);
    }
  }

  /** Digits of a too low to meet a digit of b in column c. */
  lemma {:induction false} ConvLow(a: seq<int>, b: seq<int>, c: int)
    requires |a| <= c - |b| + 1 || |a| == 0
    ensures Conv(a, b, c) == 0
  {
    if a != [] {
      ConvLow(a[1..], b, c);
    }
  }

  /** Digits of a above column c meet nothing. */
  lemma {:induction false} ConvHigh(a: seq<int>, b: seq<int>, c: int, i: nat)
    requires i <= |a| && (i == |a| || i > c)
    ensures Conv(a, b, c) == Conv(a[|a| - i..], b, c)
  {
    if i == |a| {
      assert a[0..] == a;
    } else {
      ConvHigh(a[1..], b, c, i);
      assert a[1..][|a| - 1 - i..] == a[|a| - i..];
    }
  }

  /** The inner loop: add up one column. */
  method AddColumn(n1: seq<int>, n2: seq<int>, c: nat, carry: int) returns (sum: int)
    requires n2 != []
    ensures sum == carry + Conv(n1, n2, c)
  {
    var i, j := Max(0, c - |n2| + 1), Min(c, |n2| - 1);
    sum := carry;
    if i <= |n1| {
      ConvLow(n1[|n1| - i..], n2, c);
    } else {
      ConvLow(n1, n2, c);
    }
    while i < |n1| && j >= 0
      invariant i >= 0 && i + j == c && -1 <= j < |n2|
      invariant i <= |n1| ==> sum == carry + Conv(n1[|n1| - i..], n2, c)
      invariant i > |n1| ==> sum == carry + Conv(n1, n2, c)
    {
      assert n1[|n1| - i - 1..][1..] == n1[|n1| - i..];
      sum := sum + n1[|n1| - 1 - i] * n2[|n2| - 1 - j];
      i, j := i + 1, j - 1;
    }
    if i <= |n1| {
      ConvHigh(n1, n2, c, i);
    }
  }

  lemma {:induction false} ConvNonneg(a: seq<int>, b: seq<int>, c: int)
    requires IsDigits(a) && IsDigits(b)
    ensures Conv(a, b, c) >= 0
  {
    if a != [] {
      ConvNonneg(a[1..], b, c);
      MulMono(0, a[0], 0, DigitAt(b, c - (|a| - 1)));
    }
  }

  /** The c low columns are written out, but for a carry into column c. */
  ghost predicate Written(buf: seq<int>, a: seq<int>, b: seq<int>, c: nat, sum: int)
  {
    && c <= |buf| && sum >= 0
    && IsDigits(buf[|buf| - c..])
    && Val(buf[|buf| - c..]) + sum * P(c) == Columns(a, b, c)
  }

  lemma WrittenStep(before: seq<int>, buf: seq<int>, a: seq<int>, b: seq<int>, c: nat, carry: int, sum: int)
    requires Written(before, a, b, c, carry) && c < |buf| == |before|
    requires buf[|buf| - c..] == before[|buf| - c..]
    requires sum == carry + Conv(a, b, c) && sum >= 0 && buf[|buf| - 1 - c] == sum % 10
    ensures Written(buf, a, b, c + 1, sum / 10)
  {
    var i := |buf| - 1 - c;
    assert buf[i..] == [buf[i]] + buf[i + 1..];
    ValCons(buf[i], buf[i + 1..]);
    ColumnWritten(P(c), Val(buf[i + 1..]), carry, Conv(a, b, c), Columns(a, b, c));
  }

  lemma ColumnWritten(p: int, v: int, carry: int, conv: int, cols: int)
    requires v + carry * p == cols
    ensures ((carry + conv) % 10 * p + v) + (carry + conv) / 10 * (10 * p) == cols + conv * p
  {
    var r, q := (carry + conv) % 10, (carry + conv) / 10;
    assert r + 10 * q == carry + conv;
    assert (r + 10 * q) * p == r * p + q * (10 * p);
    assert (carry + conv) * p == carry * p + conv * p;
  }

  /** The product of two digit strings; the first of its |n1| + |n2| + 1 digits is always zero. */
  method SimpMul(n1: seq<int>, n2: seq<int>) returns (prod: BcNum)
    requires IsDigits(n1) && IsDigits(n2) && n1 != [] && n2 != []
    ensures prod.WellFormed() && prod.sign == Plus && prod.scale == 0 && prod.len == |n1| + |n2| + 1
    ensures prod.Mag() == Val(n1) * Val(n2)
    ensures prod.digits[0] == 0
  {
    var prodlen := |n1| + |n2| + 1;
    var buf := new int[prodlen](_ => 0);
    var indx, sum := 0, 0;
    while indx < prodlen - 1
      invariant 0 <= indx <= prodlen - 1
      invariant Written(buf[..], n1, n2, indx, sum)
    {
      ghost var before, carry := buf[..], sum;
      sum := AddColumn(n1, n2, indx, sum);
      ConvNonneg(n1, n2, indx);
      buf[prodlen - 1 - indx] := sum % 10;
      assert buf[..][prodlen - indx..] == before[prodlen - indx..];
      WrittenStep(before, buf[..], n1, n2, indx, carry, sum);
      sum := sum / 10;
      indx := indx + 1;
    }
    ghost var before := buf[..];
    buf[0] := sum;
    assert buf[..][1..] == before[1..];
    TopDigit(before, buf[..], n1, n2, sum);
    prod := BcNum(Plus, prodlen, 0, buf[..]);
  }

  /** Nothing is left to carry into the top digit. */
  lemma TopDigit(before: seq<int>, buf: seq<int>, a: seq<int>, b: seq<int>, sum: int)
    requires IsDigits(a) && IsDigits(b)
    requires |before| == |buf| == |a| + |b| + 1 && Written(before, a, b, |a| + |b|, sum)
    requires buf[1..] == before[1..] && buf[0] == sum
    ensures sum == 0 && IsDigits(buf) && Val(buf) == Val(a) * Val(b)
  {
    hide P, Val, Columns;
    ColumnsAreProduct(a, b, |a| + |b|);
    ProductBound(a, b);
    LastCarry(before[1..], sum, P(|a| + |b|), Val(a) * Val(b));
    assert before[|before| - (|a| + |b|)..] == before[1..];
    assert buf == [0] + before[1..];
    ValCons(0, before[1..]);
  }

  lemma LastCarry(s: seq<int>, c: int, p: nat, w: int)
    requires IsDigits(s) && Val(s) + c * p == w && c >= 0 && w < p
    ensures c == 0 && Val(s) == w
  {
    ValBound(s);
    NoCarry(Val(s), c, p, w);
  }

  lemma ProductBound(a: seq<int>, b: seq<int>)
    requires IsDigits(a) && IsDigits(b)
    ensures 0 <= Val(a) * Val(b) < P(|a| + |b|)
  {
    ValBound(a);
    ValBound(b);
    PAdd(|a|, |b|);
    MulBound(Val(a), Val(b), P(|a|), P(|b|));
  }
}
