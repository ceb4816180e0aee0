/** bc_divide: Knuth's long division, exact to the requested number of decimals. */
module Divide {
  import opened Arith
  import opened Digits
  import opened Number
  import opened DivideStep
  import opened DivideWindow
  import opened Wrappers

  /**
   Where the division loop stands after n quotient digits: the first n + len digits of the
   dividend are quot * v + r, r < v is in num1[n .. n + len], and the rest is untouched.
   */
  ghost predicate Dividing(num1: seq<int>, dividend: seq<int>, v: int, quot: int, n: nat, len: nat)
  {
    && |num1| == |dividend| && n + len <= |num1|
    && IsDigits(num1[n..])
    && num1[n + len..] == dividend[n + len..]
    && Val(num1[n..n + len]) < v
    && Val(dividend[..n + len]) == quot * v + Val(num1[n..n + len])
  }

  /** The window of the next turn: remainder so far, times ten, plus the next digit. */
  lemma NextWindow(num1: seq<int>, dividend: seq<int>, v: int, quot: int, n: nat, len: nat)
    requires Dividing(num1, dividend, v, quot, n, len) && n + len < |num1|
    ensures IsDigits(num1[n..n + len + 1])
    ensures 0 <= Val(num1[n..n + len + 1]) < 10 * v
    ensures Val(dividend[..n + len + 1]) == 10 * (quot * v) + Val(num1[n..n + len + 1])
  {
    hide P, Val;
    var d := num1[n + len];
    assert num1[n..n + len + 1] == num1[n..n + len] + [d];
    assert d == num1[n + len..][0] == dividend[n + len..][0];
    assert dividend[..n + len + 1] == dividend[..n + len] + [d];
    ValSnoc(num1[n..n + len], d);
    ValSnoc(dividend[..n + len], d);
    assert d == num1[n..][len];
    SubDigits(num1[n..], num1[n..n + len + 1]);
    ValBound(num1[n..n + len + 1]);
  }

  lemma SubDigits(s: seq<int>, t: seq<int>)
    requires IsDigits(s) && t <= s
    ensures IsDigits(t)
  {
    forall k | 0 <= k < |t| ensures 0 <= t[k] <= 9 {
      assert t[k] == s[k];
    }
  }

  /** After a turn: the remainder has lost its leading zero and the quotient has one more digit. */
  lemma DividingStep(before: seq<int>, num1: seq<int>, dividend: seq<int>, v: int, quot: int, n: nat, len: nat, q: int)
    requires Dividing(before, dividend, v, quot, n, len) && n + len < |before| == |num1|
    requires 0 < v < P(len)
    requires q == Val(before[n..n + len + 1]) / v && Val(num1[n..n + len + 1]) == Val(before[n..n + len + 1]) % v
    requires IsDigits(num1[n..n + len + 1]) && num1[n + len + 1..] == before[n + len + 1..]
    ensures Dividing(num1, dividend, v, 10 * quot + q, n + 1, len)
  {
    hide P, Val;
    NextWindow(before, dividend, v, quot, n, len);
    var w := num1[n..n + len + 1];
    TopVanishes(w, len);
    assert w[1..] == num1[n + 1..n + 1 + len];
    assert num1[n + 1..] == w[1..] + num1[n + len + 1..];
    assert before[n..][len + 1..] == before[n + len + 1..];
    assert num1[n + len + 1..] == before[n + len..][1..] == dividend[n + len..][1..] == dividend[n + len + 1..];
    TailDigits(before[n..], len + 1, w[1..]);
    QuotientGrows(Val(before[n..n + len + 1]), v, quot, q);
  }

  lemma TailDigits(s: seq<int>, i: nat, t: seq<int>)
    requires IsDigits(s) && i <= |s| && IsDigits(t)
    ensures IsDigits(t + s[i..])
  {
  }

  lemma QuotientGrows(u: int, v: int, quot: int, q: int)
    requires v > 0 && q == u / v
    ensures 10 * (quot * v) + u == (10 * quot + q) * v + u % v
    ensures u % v < v
  {
    assert u == q * v + u % v;
    assert (10 * quot + q) * v == 10 * (quot * v) + q * v;
  }

  lemma TopVanishes(w: seq<int>, len: nat)
    requires IsDigits(w) && |w| == len + 1 && Val(w) < P(len)
    ensures w[0] == 0 && Val(w) == Val(w[1..])
  {
    hide P, Val;
    ValLeading(w);
    MulCancelLt(w[0], 1, P(len));
    assert w == [0] + w[1..];
    ValCons(0, w[1..]);
  }

  /** What the loop needs of the normalised divisor. */
  ghost predicate Divisor(num2: seq<int>, o: nat, len2: nat)
  {
    && len2 >= 1 && o + len2 + 1 <= |num2|
    && IsDigits(num2[o..o + len2 + 1]) && num2[o] >= 5 && num2[o + len2] == 0
  }

  /** The division loop: qval[start..] receives the digits of the quotient. */
  method DivideLoop(num1: array<int>, len2: nat, num2: array<int>, o: nat, mval: array<int>, qval: array<int>,
    start: nat, count: nat)
    requires num1 != num2 && num1 != mval && num2 != mval && qval != num1 && qval != num2 && qval != mval
    requires mval.Length == len2 + 1 && start + count == qval.Length && num1.Length >= count + len2 + 1
    requires IsDigits(num1[..]) && Divisor(num2[..], o, len2)
    requires Val(num1[..len2]) < Val(num2[o..o + len2])
    requires forall k :: 0 <= k < qval.Length ==> qval[k] == 0
    modifies num1, mval, qval
    ensures IsDigits(qval[..]) && Val(num2[o..o + len2]) > 0
    ensures Val(qval[..]) == old(Val(num1[..count + len2])) / Val(num2[o..o + len2])
  {
    hide P, Val;
    ghost var dividend, v, divisor := num1[..], Val(num2[o..o + len2]), num2[..];
    var qdig := 0;
    StartDividing(num1[..], v, len2);
    ValZeros(qval[..start]);
    DivisorFacts(num2[..], o, len2);
    while qdig < count
      invariant 0 <= qdig <= count
      invariant num2[..] == divisor
      invariant IsDigits(qval[..start + qdig])
      invariant Dividing(num1[..], dividend, v, Val(qval[..start + qdig]), qdig, len2)
    {
      DivideTurn(num1, qdig, len2, num2, o, mval, qval, start, dividend, v);
      qdig := qdig + 1;
    }
    assert qval[..start + count] == qval[..];
    FinishDividing(num1[..], dividend, v, Val(qval[..]), count, len2);
  }

  lemma DivisorFacts(num2: seq<int>, o: nat, len2: nat)
    requires Divisor(num2, o, len2)
    ensures IsDigits(num2[o..o + len2]) && 0 < Val(num2[o..o + len2]) < P(len2)
  {
    hide P, Val;
    var x := num2[o..o + len2];
    assert num2[o..o + len2 + 1][..len2] == x;
    SubDigits(num2[o..o + len2 + 1], x);
    ValBound(x);
    ValLeading(x);
    MulMono(1, x[0], 1, P(len2 - 1));
  }

  lemma StartDividing(num1: seq<int>, v: int, len2: nat)
    requires len2 <= |num1| && IsDigits(num1) && Val(num1[..len2]) < v
    ensures Dividing(num1, num1, v, 0, 0, len2)
  {
    assert num1[0..] == num1 && num1[0..0 + len2] == num1[..len2];
  }

  lemma FinishDividing(num1: seq<int>, dividend: seq<int>, v: int, quot: int, n: nat, len: nat)
    requires Dividing(num1, dividend, v, quot, n, len) && v > 0
    ensures quot == Val(dividend[..n + len]) / v
  {
    hide P, Val;
    assert num1[n..][..len] == num1[n..n + len];
    SubDigits(num1[n..], num1[n..n + len]);
    ValBound(num1[n..n + len]);
    DivUnique(Val(dividend[..n + len]), v, quot);
  }

  /** One turn of the loop. */
  method DivideTurn(num1: array<int>, qdig: nat, len2: nat, num2: array<int>, o: nat, mval: array<int>,
    qval: array<int>, start: nat,
                    ghost dividend: seq<int>, ghost v: int)
    requires num1 != num2 && num1 != mval && num2 != mval && qval != num1 && qval != num2 && qval != mval
    requires mval.Length == len2 + 1 && start + qdig < qval.Length && num1.Length >= qdig + len2 + 2
    requires Divisor(num2[..], o, len2) && v == Val(num2[o..o + len2])
    requires IsDigits(qval[..start + qdig])
    requires Dividing(num1[..], dividend, v, Val(qval[..start + qdig]), qdig, len2)
    modifies num1, mval, qval
    ensures IsDigits(qval[..start + qdig + 1])
    ensures Dividing(num1[..], dividend, v, Val(qval[..start + qdig + 1]), qdig + 1, len2)
  {
    hide P, Val;
    ghost var before, quot := num1[..], qval[..start + qdig];
    DivisorFacts(num2[..], o, len2);
    TurnReady(num1[..], dividend, v, Val(quot), qdig, len2);
    var q := QuotientDigit(num1, qdig, len2, num2, o, mval);
    DividingStep(before, num1[..], dividend, v, Val(quot), qdig, len2, q);
    qval[start + qdig] := q;
    assert qval[..start + qdig + 1] == quot + [q];
    ValSnoc(quot, q);
  }

  lemma TurnReady(num1: seq<int>, dividend: seq<int>, v: int, quot: int, n: nat, len: nat)
    requires Dividing(num1, dividend, v, quot, n, len) && n + len + 2 <= |num1|
    ensures IsDigits(num1[n..n + len + 2]) && Val(num1[n..n + len + 1]) < 10 * v
  {
    NextWindow(num1, dividend, v, quot, n, len);
    assert num1[n..][..len + 2] == num1[n..n + len + 2];
    SubDigits(num1[n..], num1[n..n + len + 2]);
  }

  /** Zeros at the end of the divisor's fraction are wasted effort: how many fraction digits remain without them. */
  method TrimScale(n: BcNum) returns (scale: nat)
    requires n.WellFormed()
    ensures scale <= n.scale && n.Mag() == Val(n.digits[..n.len + scale]) * P(n.scale - scale)
  {
    scale := n.scale;
    while scale > 0 && n.digits[n.len + scale - 1] == 0
      invariant scale <= n.scale
      invariant forall k :: n.len + scale <= k < |n.digits| ==> n.digits[k] == 0
    {
      scale := scale - 1;
    }
    ValSplit(n.digits, n.len + scale);
    ValZeros(n.digits[n.len + scale..]);
  }

  /** The divisor's digits with a guard zero behind them, and where its first nonzero digit is. */
  method LoadDivisor(d: seq<int>) returns (num2: array<int>, o: nat)
    requires IsDigits(d) && Val(d) > 0
    ensures fresh(num2) && num2.Length == |d| + 1 && o < |d|
    ensures IsDigits(num2[..]) && num2[|d|] == 0 && num2[o] >= 1
    ensures Val(num2[o..|d|]) == Val(d)
  {
    hide P, Val;
    num2 := new int[|d| + 1](k requires 0 <= k < |d| + 1 => if k < |d| then d[k] else 0);
    assert num2[..|d|] == d;
    o := 0;
    ValZeroIff(d);
    while num2[o] == 0
      invariant o < |d| && forall k :: 0 <= k < o ==> d[k] == 0
      decreases |d| - o
    {
      if o + 1 == |d| {
        assert false;
      }
      o := o + 1;
    }
    ValSplit(d, o);
    ValZeros(d[..o]);
    assert num2[o..|d|] == d[o..];
  }

  /** The dividend's digits between a spare zero in front and the zeros that make room for the decimals. */
  method LoadDividend(d: seq<int>, extra: nat) returns (num1: array<int>)
    requires IsDigits(d)
    ensures fresh(num1) && num1.Length == |d| + extra + 2 && IsDigits(num1[..]) && num1[|d| + extra + 1] == 0
    ensures 0 <= Val(num1[..|d| + extra + 1]) < P(|d| + extra)
    ensures Val(num1[..|d| + extra + 1]) == Val(d) * P(extra)
  {
    hide P, Val;
    var t := |d| + extra + 2;
    num1 := new int[t](k requires 0 <= k < t => if 1 <= k <= |d| then d[k - 1] else 0);
    assert num1[..t - 1] == [0] + (d + Zeros(extra));
    ValCons(0, d + Zeros(extra));
    ValAppendZeros(d, extra);
    ValBound(d + Zeros(extra));
  }

  lemma NormBounds(v0: int)
    requires 1 <= v0 <= 9
    ensures 1 <= 10 / (v0 + 1) <= 5 && 10 / (v0 + 1) * (v0 + 1) <= 10 && 10 / (v0 + 1) * v0 >= 5
  {
  }

  /** Scaling by the norm keeps the size of the divisor and brings its first digit to at least 5. */
  lemma NormDivisor(s: seq<int>, norm: int)
    requires IsDigits(s) && s != [] && s[0] >= 1 && norm == 10 / (s[0] + 1)
    ensures Val(s) * norm < P(|s|) && Val(s) * norm >= 5 * P(|s| - 1)
  {
    hide P, Val;
    ValLeading(s);
    NormBounds(s[0]);
    NormInts(Val(s), s[0], P(|s| - 1), norm);
    PStep(|s| - 1);
  }

  lemma NormInts(x: int, v0: int, p: nat, norm: nat)
    requires v0 * p <= x < (v0 + 1) * p && norm >= 1 && norm * (v0 + 1) <= 10 && norm * v0 >= 5
    ensures 5 * p <= x * norm < 10 * p
  {
    ScaledBounds(norm, v0, p, x);
    MulLe(5, norm * v0, p);
    MulLe(norm * (v0 + 1), 10, p);
    MulAssoc(norm, v0 + 1, p);
    ScaleLe(norm, x + 1, (v0 + 1) * p);
    MulDist(norm, x, 1);
  }

  lemma FirstDigitLarge(s: seq<int>)
    requires IsDigits(s) && s != [] && Val(s) >= 5 * P(|s| - 1)
    ensures s[0] >= 5
  {
    ValLeading(s);
    MulCancelLt(5, s[0] + 1, P(|s| - 1));
  }

  /** Multiply a stretch of an array by a digit in place, when the product needs no more room. */
  method ScaleInPlace(a: array<int>, lo: nat, size: nat, norm: int)
    requires lo + size <= a.Length && IsDigits(a[lo..lo + size]) && 1 <= norm <= 9
    requires Val(a[lo..lo + size]) * norm < P(size)
    modifies a
    ensures IsDigits(a[lo..lo + size])
    ensures Val(a[lo..lo + size]) == old(Val(a[lo..lo + size])) * norm
    ensures forall k :: 0 <= k < lo - 1 || lo + size <= k < a.Length ==> a[k] == old(a[k])
  {
    hide P, Val;
    ghost var v := Val(a[lo..lo + size]);
    if norm != 1 {
      ghost var c := OneMult(a, lo, size, norm, a, lo);
      ValBound(a[lo..lo + size]);
      NoCarry(Val(a[lo..lo + size]), c, P(size), v * norm);
    }
  }

  /** The first len2 digits of the normalised dividend are below the normalised divisor. */
  lemma StartsBelow(num1: seq<int>, len2: nat, x: int, v: int, norm: int)
    requires IsDigits(num1) && 1 <= len2 <= |num1| && norm >= 1
    requires Val(num1) == x * norm && 0 <= x < P(|num1| - 1) && P(len2 - 1) <= v
    ensures Val(num1[..len2]) < v * norm
  {
    hide P, Val;
    var k := |num1| - len2;
    ValSplit(num1, len2);
    ValBound(num1[len2..]);
    PAdd(len2 - 1, k);
    MulLe(x + 1, P(len2 - 1) * P(k), norm);
    MulDist(norm, x, 1);
    assert P(len2 - 1) * P(k) * norm == P(len2 - 1) * norm * P(k);
    MulCancelLt(Val(num1[..len2]), P(len2 - 1) * norm, P(k));
    MulLe(P(len2 - 1), v, norm);
  }

  /** Normalising both sides and dropping k digits leaves the quotient alone. */
  lemma NormQuotient(x: int, v: int, norm: int, k: nat)
    requires v > 0 && norm > 0
    ensures v * norm > 0 && P(k) * v > 0
    ensures (x * norm / P(k)) / (v * norm) == x / (P(k) * v)
  {
    hide P;
    assert v * norm > 0 by { MulMono(1, v, 1, norm); }
    assert P(k) * v > 0 by { MulMono(1, P(k), 1, v); }
    DivDiv(x * norm, P(k), v * norm);
    MulAssoc(P(k), v, norm);
    DivScale(x, P(k) * v, norm);
  }

  /** The bookkeeping of decimal points: what the quotient of the loaded digits is of the original numbers. */
  lemma PointsAgree(a: int, b: int, v: int, s1: nat, s2: nat, t2: nat, scale: nat, extra: nat, k: nat)
    requires t2 <= s2 && v > 0 && b == v * P(s2 - t2)
    requires extra + s1 == t2 + scale + k && extra <= s2 + scale
    ensures P(k) * v > 0 && b * P(s1) > 0
    ensures a * P(extra) / (P(k) * v) == a * P(s2 + scale) / (b * P(s1))
  {
    hide P;
    var t := s2 + scale - extra;
    assert P(k) * v > 0 by { MulMono(1, P(k), 1, v); }
    DivScale(a * P(extra), P(k) * v, P(t));
    PAdd(extra, t);
    MulAssoc(a, P(extra), P(t));
    PAdd(k, t);
    PAdd(s2 - t2, s1);
    assert k + t == s2 - t2 + s1;
    assert P(k) * v * P(t) == v * P(k + t);
    MulAssoc(v, P(s2 - t2), P(s1));
  }

  /** Digits of the divisor beyond those of the dividend: the quotient is zero to this many decimals. */
  lemma TooSmall(x: int, v: int, k: nat, m: nat)
    requires 0 <= x < P(m + k) && v >= P(m)
    ensures P(k) * v > 0 && x / (P(k) * v) == 0
  {
    hide P;
    PAdd(k, m);
    MulMono(P(k), P(k), P(m), v);
    DivUnique(x, P(k) * v, 0);
  }

  /** The magnitude of the quotient in units of 10^-scale. */
  ghost function QuotientMag(n1: BcNum, n2: BcNum, scale: nat): int
    requires n2.WellFormed() && n2.Mag() != 0
  {
    NonzeroDivisor(n1, n2);
    n1.Mag() * P(n2.scale + scale) / (n2.Mag() * P(n1.scale))
  }

  lemma NonzeroDivisor(n1: BcNum, n2: BcNum)
    requires n2.WellFormed() && n2.Mag() != 0
    ensures n2.Mag() * P(n1.scale) > 0
  {
    MagBound(n2);
    MulMono(1, n2.Mag(), 1, P(n1.scale));
  }

  /** Normalise, run the loop, and read off the quotient. */
  method LongDivision(num1: array<int>, num2: array<int>, o: nat, len2: nat, qval: array<int>, start: nat, count: nat)
    requires num1 != num2 && num1 != qval && num2 != qval
    requires len2 >= 1 && o + len2 + 1 == num2.Length && IsDigits(num2[..]) && num2[o + len2] == 0 && num2[o] >= 1
    requires start + count == qval.Length && num1.Length >= count + len2 + 1
    requires IsDigits(num1[..]) && num1[num1.Length - 1] == 0 && num1.Length >= 2
    requires 0 <= Val(num1[..num1.Length - 1]) < P(num1.Length - 2)
    requires forall k :: 0 <= k < qval.Length ==> qval[k] == 0
    modifies num1, num2, qval
    ensures IsDigits(qval[..]) && old(Val(num2[o..o + len2])) > 0
    ensures P(num1.Length - 1 - count - len2) * old(Val(num2[o..o + len2])) > 0
    ensures Val(qval[..]) ==
      old(Val(num1[..num1.Length - 1])) / (P(num1.Length - 1 - count - len2) * old(Val(num2[o..o + len2])))
  {
    hide P, Val;
    var t := num1.Length - 1;
    ghost var x, v := Val(num1[..t]), Val(num2[o..o + len2]);
    var norm := 10 / (num2[o] + 1);
    LoadedDivisor(num2[..], o, len2);
    NormDivisor(num2[o..o + len2], norm);
    NormFits(x, t, norm);
    assert num1[0..0 + t] == num1[..t];
    ScaleInPlace(num1, 0, t, norm);
    ScaleInPlace(num2, o, len2, norm);
    assert num1[0..0 + t] == num1[..t];
    Normalised(num1[..], num2[..], o, len2, x, v, norm);
    var mval := new int[len2 + 1];
    var m := count + len2;
    ghost var all := num1[..t];
    assert num1[..m] == all[..m];
    ValPrefix(all, m);
    DivideLoop(num1, len2, num2, o, mval, qval, start, count);
    NormQuotient(x, v, norm, t - m);
  }

  lemma LoadedDivisor(num2: seq<int>, o: nat, len2: nat)
    requires len2 >= 1 && o + len2 <= |num2| && IsDigits(num2) && num2[o] >= 1
    ensures IsDigits(num2[o..o + len2]) && num2[o..o + len2][0] == num2[o]
    ensures P(len2 - 1) <= Val(num2[o..o + len2]) < P(len2)
    ensures 1 <= 10 / (num2[o] + 1) <= 5
  {
    hide P, Val;
    var x := num2[o..o + len2];
    ValLeading(x);
    ValBound(x);
    MulMono(1, x[0], P(len2 - 1), P(len2 - 1));
    NormBounds(num2[o]);
  }

  lemma NormFits(x: int, t: nat, norm: int)
    requires t >= 1 && 0 <= x < P(t - 1) && 1 <= norm <= 5
    ensures x * norm < P(t)
  {
    MulMono(x, P(t - 1), norm, 5);
  }

  /** The state the loop starts from. */
  lemma Normalised(num1: seq<int>, num2: seq<int>, o: nat, len2: nat, x: int, v: int, norm: int)
    requires |num1| >= 2 && len2 >= 1 && len2 < |num1| && o + len2 + 1 == |num2| && norm >= 1
    requires IsDigits(num1[..|num1| - 1]) && num1[|num1| - 1] == 0 && Val(num1[..|num1| - 1]) == x * norm
    requires 0 <= x < P(|num1| - 2)
    requires IsDigits(num2[o..o + len2]) && num2[o + len2] == 0 && Val(num2[o..o + len2]) == v * norm
    requires P(len2 - 1) <= v && v * norm >= 5 * P(len2 - 1)
    ensures IsDigits(num1) && Divisor(num2, o, len2) && Val(num1[..len2]) < Val(num2[o..o + len2])
  {
    hide P, Val;
    var all := num1[..|num1| - 1];
    assert num1 == all + [0];
    FirstDigitLarge(num2[o..o + len2]);
    assert num2[o..o + len2 + 1] == num2[o..o + len2] + [0];
    assert num2[o] == num2[o..o + len2][0];
    StartsBelow(all, len2, x, v, norm);
    assert all[..len2] == num1[..len2];
  }

  /** bc_divide: the quotient truncated toward zero to scale decimals; no quotient by zero. */
  method Div(n1: BcNum, n2: BcNum, scale: nat) returns (r: Option<BcNum>)
    requires n1.WellFormed() && n2.WellFormed() && n1.len >= 1 && n2.len >= 1
    ensures r.None? <==> n2.Mag() == 0
    ensures r.Some? ==> r.value.Valid() && r.value.scale == scale
    ensures r.Some? ==> n2.Int() * P(n1.scale) != 0
    ensures r.Some? ==> r.value.Int() == TruncDiv(n1.Int() * P(n2.scale + scale), n2.Int() * P(n1.scale))
  {
    hide P, Val;
    var zero := IsZero(n2);
    if zero {
      return None;
    }
    var qdigits := QuotientDigits(n1, n2, scale);
    var q := BcNum(if n1.sign == n2.sign then Plus else Minus, |qdigits| - scale, scale, qdigits);
    var z := IsZero(q);
    if z {
      q := q.(sign := Plus);
    }
    q := RmLeadingZeros(q);
    MagBound(n1);
    MagBound(n2);
    NonzeroDivisor(n1, n2);
    SignedDivision(n1.sign, n1.Mag(), n2.sign, n2.Mag(), P(n2.scale + scale), P(n1.scale));
    r := Some(q);
  }

  lemma SignedDivision(s1: Sign, x: int, s2: Sign, y: int, a: nat, b: nat)
    requires x >= 0 && y >= 0 && y * b > 0 && a >= 1 && b >= 1
    ensures (if s2 == Plus then y else -y) * b != 0
    ensures TruncDiv((if s1 == Plus then x else -x) * a, (if s2 == Plus then y else -y) * b)
      == if s1 == s2 then x * a / (y * b) else -(x * a / (y * b))
  {
    MulMono(0, x, 0, a);
    assert (-x) * a == -(x * a) && (-y) * b == -(y * b);
    if x * a == 0 {
      assert x * a / (y * b) == 0;
    }
  }

  /** The digits of the quotient: scale of them after the point. */
  method QuotientDigits(n1: BcNum, n2: BcNum, scale: nat) returns (q: seq<int>)
    requires n1.WellFormed() && n2.WellFormed() && n1.len >= 1 && n2.len >= 1 && n2.Mag() != 0
    ensures IsDigits(q) && |q| >= scale + 1
    ensures Val(q) == QuotientMag(n1, n2, scale)
  {
    hide P, Val;
    var scale2 := TrimScale(n2);
    var len1 := n1.len + scale2;
    var scale1: int := n1.scale - scale2;
    var extra: nat := if scale1 < scale then scale - scale1 else 0;
    var num1 := LoadDividend(n1.digits, extra);
    ghost var v := Val(n2.digits[..n2.len + scale2]);
    TrimmedDivisor(n2, scale2);
    var num2, o := LoadDivisor(n2.digits[..n2.len + scale2]);
    var len2: nat := n2.len + scale2 - o;
    var qdigits: nat := if len2 > len1 then scale + 1 else len1 - len2 + scale + 1;
    var qval := new int[qdigits](_ => 0);
    ghost var k: nat := scale1 + extra - scale;
    PointsAgree(n1.Mag(), n2.Mag(), v, n1.scale, n2.scale, scale2, scale, extra, k);
    if len2 > len1 + scale {
      LoadedDivisor(num2[..], o, len2);
      TooSmallHere(n1, extra, v, k, len1 + scale, len2);
      ValZeros(qval[..]);
    } else {
      var start: nat := if len2 > len1 then len2 - len1 else 0;
      LongDivision(num1, num2, o, len2, qval, start, qdigits - start);
    }
    q := qval[..];
  }

  lemma TrimmedDivisor(n: BcNum, scale: nat)
    requires n.WellFormed() && scale <= n.scale && n.Mag() != 0
    requires n.Mag() == Val(n.digits[..n.len + scale]) * P(n.scale - scale)
    ensures IsDigits(n.digits[..n.len + scale]) && Val(n.digits[..n.len + scale]) > 0
  {
    hide P, Val;
    ValBound(n.digits[..n.len + scale]);
  }

  lemma TooSmallHere(n1: BcNum, extra: nat, v: int, k: nat, m: nat, len2: nat)
    requires n1.WellFormed() && n1.len + n1.scale + extra == m + k && len2 > m && v >= P(len2 - 1)
    ensures P(k) * v > 0 && n1.Mag() * P(extra) / (P(k) * v) == 0
  {
    hide P, Val;
    MagBound(n1);
    PAdd(n1.len + n1.scale, extra);
    MulBound(n1.Mag(), 0, P(n1.len + n1.scale), 1);
    MulMono(0, n1.Mag(), 0, P(extra));
    MulLe(n1.Mag() + 1, P(n1.len + n1.scale), P(extra));
    MulDist(P(extra), n1.Mag(), 1);
    PMono(m, len2 - 1);
    TooSmall(n1.Mag() * P(extra), v, k, m);
  }
}
