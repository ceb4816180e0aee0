/** Addition and subtraction of decimal numbers, digit loops included. */
module AddSub {
  import opened Arith
  import opened Digits
  import opened Number
  import opened Compare

  /** a is n, or its negation, written digit by digit in a field of l integer and s fraction places. */
  ghost predicate IsAligned(a: seq<int>, n: BcNum, sg: int, l: nat, s: nat)
  {
    && n.WellFormed() && l >= n.len && s >= n.scale
    && |a| == l + s
    && forall k :: 0 <= k < |a| ==> a[k] == if l - n.len <= k < l + n.scale then sg * n.digits[k - (l - n.len)] else 0
  }

  lemma Align(n: BcNum, sg: int, l: nat, s: nat) returns (a: seq<int>)
    requires n.WellFormed() && l >= n.len && s >= n.scale && sg in {1, -1}
    ensures IsAligned(a, n, sg, l, s) && Val(a) == sg * n.MagAt(s)
  {
    hide P, Val;
    var z := Zeros(l - n.len);
    var c := z + n.digits + Zeros(s - n.scale);
    ValZeros(z);
    ValConcat(z, n.digits);
    ValAppendZeros(z + n.digits, s - n.scale);
    a := seq(|c|, k requires 0 <= k < |c| => sg * c[k]);
    ValNegate(c, a, sg);
  }

  lemma {:induction false} ValNegate(c: seq<int>, a: seq<int>, sg: int)
    requires sg in {1, -1} && |a| == |c| && forall k :: 0 <= k < |c| ==> a[k] == sg * c[k]
    ensures Val(a) == sg * Val(c)
  {
    if c != [] {
      ValNegate(c[..|c| - 1], a[..|a| - 1], sg);
    }
  }

  /** A suffix grows by one digit on the left. */
  lemma SuffixCons(s: seq<int>, i: nat)
    requires i < |s|
    ensures Val(s[i..]) == s[i] * P(|s| - i - 1) + Val(s[i + 1..])
  {
    assert s[i..] == [s[i]] + s[i + 1..];
    ValCons(s[i], s[i + 1..]);
  }

  /** One column: d + 10 * c2 carries what x + y + c1 adds. */
  lemma ColumnStep(p: nat, d: int, x: int, y: int, c1: int, c2: int, r: int, a: int, b: int)
    requires r + c1 * p == a + b && d + 10 * c2 == x + y + c1
    ensures (d * p + r) + c2 * (10 * p) == (x * p + a) + (y * p + b)
  {
    assert (d + 10 * c2) * p == (x + y + c1) * p;
    assert (d + 10 * c2) * p == d * p + c2 * (10 * p);
    assert (x + y + c1) * p == x * p + y * p + c1 * p;
  }

  /** Columns i.. of buf hold the sum of those columns of a and b, but for a carry out of column i. */
  ghost predicate ColumnSum(buf: seq<int>, a: seq<int>, b: seq<int>, i: int, carry: int)
  {
    && |buf| == |a| == |b| && 0 <= i <= |buf|
    && IsDigits(buf[i..])
    && Val(buf[i..]) + carry * P(|buf| - i) == Val(a[i..]) + Val(b[i..])
  }

  lemma ColumnSumStep(old_buf: seq<int>, buf: seq<int>, a: seq<int>, b: seq<int>, i: int, c1: int, c2: int)
    requires 0 <= i < |buf| && ColumnSum(old_buf, a, b, i + 1, c1)
    requires |buf| == |old_buf| && buf[i + 1..] == old_buf[i + 1..]
    requires 0 <= buf[i] <= 9 && buf[i] + 10 * c2 == a[i] + b[i] + c1
    ensures ColumnSum(buf, a, b, i, c2)
  {
    SuffixCons(buf, i);
    SuffixCons(a, i);
    SuffixCons(b, i);
    ColumnStep(P(|buf| - i - 1), buf[i], a[i], b[i], c1, c2, Val(buf[i + 1..]), Val(a[i + 1..]), Val(b[i + 1..]));
    forall k | 0 <= k < |buf[i..]| ensures 0 <= buf[i..][k] <= 9 {
      if k > 0 {
        assert buf[i..][k] == buf[i + 1..][k - 1];
      }
    }
  }

  /** Columns that are zero in all three strings add nothing. */
  lemma ZeroColumns(buf: seq<int>, a: seq<int>, b: seq<int>, i: nat)
    requires |buf| == |a| == |b| && i <= |buf|
    requires forall k :: i <= k < |buf| ==> buf[k] == a[k] == b[k] == 0
    ensures ColumnSum(buf, a, b, i, 0)
  {
    ValZeros(buf[i..]);
    ValZeros(a[i..]);
    ValZeros(b[i..]);
  }

  /** Right of both fractions there is nothing to add. */
  lemma AlignedEnd(buf: seq<int>, a: seq<int>, n: BcNum, sn: int, b: seq<int>, m: BcNum, sm: int, l: nat, s: nat)
    requires IsAligned(a, n, sn, l, s) && IsAligned(b, m, sm, l, s) && |buf| == l + s
    requires forall k :: 0 <= k < |buf| ==> buf[k] == 0
    ensures ColumnSum(buf, a, b, l + Max(n.scale, m.scale), 0)
  {
    ZeroColumns(buf, a, b, l + Max(n.scale, m.scale));
  }

  lemma ColumnSumSymmetric(buf: seq<int>, a: seq<int>, b: seq<int>, i: int, carry: int)
    requires ColumnSum(buf, a, b, i, carry)
    ensures ColumnSum(buf, b, a, i, carry)
  {
  }

  lemma AllColumns(buf: seq<int>, a: seq<int>, b: seq<int>, carry: int)
    requires ColumnSum(buf, a, b, 0, carry)
    ensures IsDigits(buf) && Val(buf) + carry * P(|buf|) == Val(a) + Val(b)
  {
    assert a[0..] == a && b[0..] == b && buf[0..] == buf;
  }

  /** Left of start, a holds the last fraction digits of n and b has nothing there. */
  ghost predicate LoneFraction(a: seq<int>, b: seq<int>, n: BcNum, sg: int, fraction: nat, start: nat)
  {
    && n.WellFormed() && fraction <= n.scale && n.scale - fraction <= start <= |a| == |b|
    && forall k :: start - (n.scale - fraction) <= k < start ==>
         a[k] == sg * n.digits[k - start + |n.digits|] && b[k] == 0
  }

  /** The digits d end at column start of a. */
  ghost predicate EndsAt(a: seq<int>, d: seq<int>, sg: int, start: nat)
  {
    && IsDigits(d) && |d| <= start <= |a|
    && forall k :: 0 <= k < |d| ==> a[start - |d| + k] == sg * d[k]
  }

  /** The digits d end at column start of a, and b has nothing there. */
  ghost predicate LoneDigits(a: seq<int>, b: seq<int>, d: seq<int>, start: nat)
  {
    && IsDigits(d) && |d| <= start <= |a| == |b|
    && forall k :: start - |d| <= k < start ==> a[k] == d[k - (start - |d|)] && b[k] == 0
  }

  lemma AlignedTail(a: seq<int>, n: BcNum, sg: int, b: seq<int>, m: BcNum, sm: int, l: nat, s: nat)
    requires IsAligned(a, n, sg, l, s) && IsAligned(b, m, sm, l, s) && m.scale <= n.scale
    ensures LoneFraction(a, b, n, sg, m.scale, l + n.scale)
  {
  }

  lemma AlignedCommon(a: seq<int>, n: BcNum, sg: int, l: nat, s: nat, low: nat)
    requires IsAligned(a, n, sg, l, s) && low <= n.scale
    ensures EndsAt(a, n.digits[..n.len + low], sg, l + low)
  {
  }

  lemma AlignedTop(a: seq<int>, n: BcNum, b: seq<int>, m: BcNum, sm: int, l: nat, s: nat)
    requires IsAligned(a, n, 1, l, s) && IsAligned(b, m, sm, l, s) && m.len <= n.len
    ensures LoneDigits(a, b, n.digits[..n.len - m.len], l - m.len)
  {
  }

  predicate ZeroBelow(sum: array<int>, i: int)
    reads sum
  {
    i <= sum.Length && forall k :: 0 <= k < i ==> sum[k] == 0
  }

  /** First loop of _bc_do_add and _bc_do_sub: copy the part of the longer fraction that has no partner. */
  method CopyFraction(sum: array<int>, n: BcNum, fraction: nat, start: nat, ghost a: seq<int>, ghost b: seq<int>)
    returns (i: nat)
    requires LoneFraction(a, b, n, 1, fraction, start)
    requires ColumnSum(sum[..], a, b, start, 0) && ZeroBelow(sum, start)
    modifies sum
    ensures i == start - (n.scale - fraction)
    ensures ColumnSum(sum[..], a, b, i, 0) && ZeroBelow(sum, i)
  {
    i := start;
    var f := n.scale;
    while f > fraction
      invariant fraction <= f <= n.scale && i == start - (n.scale - f)
      invariant ColumnSum(sum[..], a, b, i, 0) && ZeroBelow(sum, i)
    {
      ghost var before := sum[..];
      i := i - 1;
      sum[i] := n.digits[n.len + f - 1];
      assert a[i] == sum[i] && b[i] == 0;
      f := f - 1;
      assert sum[..][i + 1..] == before[i + 1..];
      ColumnSumStep(before, sum[..], a, b, i, 0, 0);
    }
  }

  /** Second loop of _bc_do_add: add the columns both numbers have. */
  method AddColumns(sum: array<int>, d1: seq<int>, d2: seq<int>, start: nat, ghost a: seq<int>, ghost b: seq<int>)
    returns (i: nat, carry: int)
    requires EndsAt(a, d1, 1, start) && EndsAt(b, d2, 1, start)
    requires ColumnSum(sum[..], a, b, start, 0) && ZeroBelow(sum, start)
    modifies sum
    ensures i == start - Min(|d1|, |d2|) && carry in {0, 1}
    ensures ColumnSum(sum[..], a, b, i, carry) && ZeroBelow(sum, i)
  {
    i, carry := start, 0;
    var b1, b2 := |d1|, |d2|;
    while b1 > 0 && b2 > 0
      invariant 0 <= b1 && 0 <= b2 && i == start - (|d1| - b1) == start - (|d2| - b2) && carry in {0, 1}
      invariant ColumnSum(sum[..], a, b, i, carry) && ZeroBelow(sum, i)
    {
      ghost var before, c := sum[..], carry;
      i := i - 1;
      assert a[i] == d1[b1 - 1] && b[i] == d2[b2 - 1];
      sum[i] := d1[b1 - 1] + d2[b2 - 1] + carry;
      if sum[i] > 9 {
        carry := 1;
        sum[i] := sum[i] - 10;
      } else {
        carry := 0;
      }
      b1, b2 := b1 - 1, b2 - 1;
      assert sum[..][i + 1..] == before[i + 1..];
      ColumnSumStep(before, sum[..], a, b, i, c, carry);
    }
  }

  /** Third loop of _bc_do_add: run the carry through the longer integer part. */
  method AddCarry(sum: array<int>, d: seq<int>, start: nat, carryIn: int, ghost a: seq<int>, ghost b: seq<int>)
    returns (carry: int)
    requires LoneDigits(a, b, d, start) && carryIn in {0, 1}
    requires ColumnSum(sum[..], a, b, start, carryIn) && ZeroBelow(sum, start)
    modifies sum
    ensures carry in {0, 1} && ColumnSum(sum[..], a, b, start - |d|, carry) && ZeroBelow(sum, start - |d|)
  {
    var i, n := start, |d|;
    carry := carryIn;
    while n > 0
      invariant 0 <= n && i == start - (|d| - n) && carry in {0, 1}
      invariant ColumnSum(sum[..], a, b, i, carry) && ZeroBelow(sum, i)
    {
      ghost var before, c := sum[..], carry;
      i := i - 1;
      n := n - 1;
      assert a[i] == d[n] && b[i] == 0;
      sum[i] := d[n] + carry;
      if sum[i] > 9 {
        carry := 1;
        sum[i] := sum[i] - 10;
      } else {
        carry := 0;
      }
      assert sum[..][i + 1..] == before[i + 1..];
      ColumnSumStep(before, sum[..], a, b, i, c, carry);
    }
  }

  /** The final carry of _bc_do_add lands in the one extra digit at the front. */
  method FinalCarry(sum: array<int>, carry: int, ghost a: seq<int>, ghost b: seq<int>)
    requires carry in {0, 1} && sum.Length > 0 && |a| == |b| == sum.Length && a[0] == b[0] == 0
    requires ColumnSum(sum[..], a, b, 1, carry) && ZeroBelow(sum, 1)
    modifies sum
    ensures IsDigits(sum[..]) && Val(sum[..]) == Val(a) + Val(b)
  {
    ghost var before := sum[..];
    if carry == 1 {
      sum[0] := sum[0] + 1;
    }
    assert sum[..][1..] == before[1..];
    ColumnSumStep(before, sum[..], a, b, 0, carry, 0);
    AllColumns(sum[..], a, b, 0);
  }

  /** The fraction columns only one of the numbers has. */
  method AddTail(sum: array<int>, n1: BcNum, n2: BcNum, l: nat, s: nat, ghost a: seq<int>, ghost b: seq<int>)
    requires IsAligned(a, n1, 1, l, s) && IsAligned(b, n2, 1, l, s)
    requires sum.Length == l + s && ZeroBelow(sum, sum.Length)
    modifies sum
    ensures ColumnSum(sum[..], a, b, l + Min(n1.scale, n2.scale), 0)
    ensures ZeroBelow(sum, l + Min(n1.scale, n2.scale))
  {
    hide P, Val;
    var i;
    AlignedEnd(sum[..], a, n1, 1, b, n2, 1, l, s);
    if n1.scale > n2.scale {
      AlignedTail(a, n1, 1, b, n2, 1, l, s);
      i := CopyFraction(sum, n1, n2.scale, l + n1.scale, a, b);
    } else {
      AlignedTail(b, n2, 1, a, n1, 1, l, s);
      ColumnSumSymmetric(sum[..], a, b, l + n2.scale, 0);
      i := CopyFraction(sum, n2, n1.scale, l + n2.scale, b, a);
      ColumnSumSymmetric(sum[..], b, a, i, 0);
    }
  }

  /** The columns both numbers have. */
  method AddCommon(sum: array<int>, n1: BcNum, n2: BcNum, l: nat, s: nat, ghost a: seq<int>, ghost b: seq<int>)
    returns (i: nat, carry: int)
    requires IsAligned(a, n1, 1, l, s) && IsAligned(b, n2, 1, l, s) && sum.Length == l + s
    requires ColumnSum(sum[..], a, b, l + Min(n1.scale, n2.scale), 0)
    requires ZeroBelow(sum, l + Min(n1.scale, n2.scale))
    modifies sum
    ensures i == l - Min(n1.len, n2.len) && carry in {0, 1}
    ensures ColumnSum(sum[..], a, b, i, carry) && ZeroBelow(sum, i)
  {
    var low := Min(n1.scale, n2.scale);
    AlignedCommon(a, n1, 1, l, s, low);
    AlignedCommon(b, n2, 1, l, s, low);
    i, carry := AddColumns(sum, n1.digits[..n1.len + low], n2.digits[..n2.len + low], l + low, a, b);
  }

  /** The integer columns only the longer number has. */
  method AddTop(sum: array<int>, n: BcNum, m: BcNum, l: nat, s: nat, carryIn: int, ghost a: seq<int>, ghost b: seq<int>)
    returns (carry: int)
    requires l == n.len + 1 && n.len >= m.len
    requires IsAligned(a, n, 1, l, s) && IsAligned(b, m, 1, l, s) && sum.Length == l + s && carryIn in {0, 1}
    requires ColumnSum(sum[..], a, b, l - m.len, carryIn) && ZeroBelow(sum, l - m.len)
    modifies sum
    ensures carry in {0, 1} && ColumnSum(sum[..], a, b, 1, carry) && ZeroBelow(sum, 1)
  {
    AlignedTop(a, n, b, m, 1, l, s);
    carry := AddCarry(sum, n.digits[..n.len - m.len], l - m.len, carryIn, a, b);
  }

  /** _bc_do_add: the sum of the magnitudes, exact, at the larger of the scales. */
  method DoAdd(n1: BcNum, n2: BcNum, scaleMin: nat) returns (r: BcNum)
    requires n1.WellFormed() && n2.WellFormed() && n1.len >= 1 && n2.len >= 1
    ensures r.Trimmed() && r.len >= 1 && r.sign == Plus
    ensures r.scale == Max(Max(n1.scale, n2.scale), scaleMin)
    ensures r.Mag() == n1.MagAt(r.scale) + n2.MagAt(r.scale)
  {
    hide P, Val;
    var s, l := Max(Max(n1.scale, n2.scale), scaleMin), Max(n1.len, n2.len) + 1;
    var sum := new int[l + s](_ => 0);
    ghost var a := Align(n1, 1, l, s);
    ghost var b := Align(n2, 1, l, s);
    AddTail(sum, n1, n2, l, s, a, b);
    var i, carry := AddCommon(sum, n1, n2, l, s, a, b);
    if n1.len > n2.len {
      carry := AddTop(sum, n1, n2, l, s, carry, a, b);
    } else {
      carry := AddTop(sum, n2, n1, l, s, carry, b, a);
    }
    FinalCarry(sum, carry, a, b);
    r := RmLeadingZeros(BcNum(Plus, l, s, sum[..]));
  }

  /** One column of a subtraction: a digit and the borrow out of it. */
  function BorrowDigit(val: int): (r: (int, int))
    requires -10 <= val <= 9
    ensures 0 <= r.0 <= 9 && r.1 in {0, 1} && r.0 - 10 * r.1 == val
  {
    if val < 0 then (val + 10, 1) else (val, 0)
  }

  /** First loop of _bc_do_sub when the subtrahend has the longer fraction. */
  method BorrowFraction(diff: array<int>, n: BcNum, fraction: nat, start: nat, ghost a: seq<int>, ghost b: seq<int>)
    returns (i: nat, borrow: int)
    requires LoneFraction(b, a, n, -1, fraction, start)
    requires ColumnSum(diff[..], a, b, start, 0)
    modifies diff
    ensures i == start - (n.scale - fraction) && borrow in {0, 1}
    ensures ColumnSum(diff[..], a, b, i, -borrow)
  {
    i, borrow := start, 0;
    var f := n.scale;
    while f > fraction
      invariant fraction <= f <= n.scale && i == start - (n.scale - f) && borrow in {0, 1}
      invariant ColumnSum(diff[..], a, b, i, -borrow)
    {
      ghost var before, c := diff[..], borrow;
      i := i - 1;
      var (digit, next) := BorrowDigit(-n.digits[n.len + f - 1] - borrow);
      diff[i], borrow := digit, next;
      assert b[i] == -n.digits[n.len + f - 1] && a[i] == 0;
      f := f - 1;
      assert diff[..][i + 1..] == before[i + 1..];
      ColumnSumStep(before, diff[..], a, b, i, -c, -borrow);
    }
  }

  /** Second loop of _bc_do_sub: the columns both numbers have. */
  method SubColumns(diff: array<int>, d1: seq<int>, d2: seq<int>, start: nat, borrowIn: int, ghost a: seq<int>,
    ghost b: seq<int>)
    returns (i: nat, borrow: int)
    requires EndsAt(a, d1, 1, start) && EndsAt(b, d2, -1, start) && borrowIn in {0, 1}
    requires ColumnSum(diff[..], a, b, start, -borrowIn)
    modifies diff
    ensures i == start - Min(|d1|, |d2|) && borrow in {0, 1}
    ensures ColumnSum(diff[..], a, b, i, -borrow)
  {
    i, borrow := start, borrowIn;
    var count, n := 0, Min(|d1|, |d2|);
    while count < n
      invariant 0 <= count <= n && i == start - count && borrow in {0, 1}
      invariant ColumnSum(diff[..], a, b, i, -borrow)
    {
      ghost var before, c := diff[..], borrow;
      i := i - 1;
      count := count + 1;
      assert a[i] == d1[|d1| - count] && b[i] == -d2[|d2| - count];
      var (digit, next) := BorrowDigit(d1[|d1| - count] - d2[|d2| - count] - borrow);
      diff[i], borrow := digit, next;
      assert diff[..][i + 1..] == before[i + 1..];
      ColumnSumStep(before, diff[..], a, b, i, -c, -borrow);
    }
  }

  /** Third loop of _bc_do_sub: run the borrow through the longer integer part. */
  method SubBorrow(diff: array<int>, d: seq<int>, borrowIn: int, ghost a: seq<int>, ghost b: seq<int>)
    returns (borrow: int)
    requires LoneDigits(a, b, d, |d|) && borrowIn in {0, 1}
    requires ColumnSum(diff[..], a, b, |d|, -borrowIn)
    modifies diff
    ensures borrow in {0, 1} && ColumnSum(diff[..], a, b, 0, -borrow)
  {
    var i := |d|;
    borrow := borrowIn;
    while i > 0
      invariant 0 <= i <= |d| && borrow in {0, 1}
      invariant ColumnSum(diff[..], a, b, i, -borrow)
    {
      ghost var before, c := diff[..], borrow;
      i := i - 1;
      var (digit, next) := BorrowDigit(d[i] - borrow);
      diff[i], borrow := digit, next;
      assert a[i] == d[i] && b[i] == 0;
      assert diff[..][i + 1..] == before[i + 1..];
      ColumnSumStep(before, diff[..], a, b, i, -c, -borrow);
    }
  }

  method SubTail(diff: array<int>, n1: BcNum, n2: BcNum, l: nat, s: nat, ghost a: seq<int>, ghost b: seq<int>)
    returns (borrow: int)
    requires IsAligned(a, n1, 1, l, s) && IsAligned(b, n2, -1, l, s)
    requires diff.Length == l + s && ZeroBelow(diff, diff.Length)
    modifies diff
    ensures borrow in {0, 1} && ColumnSum(diff[..], a, b, l + Min(n1.scale, n2.scale), -borrow)
  {
    hide P, Val;
    AlignedEnd(diff[..], a, n1, 1, b, n2, -1, l, s);
    if n1.scale > n2.scale {
      AlignedTail(a, n1, 1, b, n2, -1, l, s);
      var i := CopyFraction(diff, n1, n2.scale, l + n1.scale, a, b);
      return 0;
    }
    borrow := SubLoneFraction(diff, n1, n2, l, s, a, b);
  }

  method SubLoneFraction(diff: array<int>, n1: BcNum, n2: BcNum, l: nat, s: nat, ghost a: seq<int>, ghost b: seq<int>)
    returns (borrow: int)
    requires IsAligned(a, n1, 1, l, s) && IsAligned(b, n2, -1, l, s) && n1.scale <= n2.scale
    requires ColumnSum(diff[..], a, b, l + n2.scale, 0)
    modifies diff
    ensures borrow in {0, 1} && ColumnSum(diff[..], a, b, l + n1.scale, -borrow)
  {
    var i;
    AlignedTail(b, n2, -1, a, n1, 1, l, s);
    i, borrow := BorrowFraction(diff, n2, n1.scale, l + n2.scale, a, b);
  }

  method SubCommon(diff: array<int>, n1: BcNum, n2: BcNum, l: nat, s: nat, borrowIn: int, ghost a: seq<int>,
    ghost b: seq<int>)
    returns (borrow: int)
    requires IsAligned(a, n1, 1, l, s) && IsAligned(b, n2, -1, l, s) && diff.Length == l + s
    requires l == n1.len >= n2.len && borrowIn in {0, 1}
    requires ColumnSum(diff[..], a, b, l + Min(n1.scale, n2.scale), -borrowIn)
    modifies diff
    ensures borrow in {0, 1} && ColumnSum(diff[..], a, b, l - n2.len, -borrow)
  {
    var low, i := Min(n1.scale, n2.scale), 0;
    AlignedCommon(a, n1, 1, l, s, low);
    AlignedCommon(b, n2, -1, l, s, low);
    i, borrow := SubColumns(diff, n1.digits[..n1.len + low], n2.digits[..n2.len + low], l + low, borrowIn, a, b);
  }

  method SubTop(diff: array<int>, n1: BcNum, n2: BcNum, s: nat, borrowIn: int, ghost a: seq<int>, ghost b: seq<int>)
    returns (borrow: int)
    requires IsAligned(a, n1, 1, n1.len, s) && IsAligned(b, n2, -1, n1.len, s)
    requires n1.len >= n2.len && borrowIn in {0, 1} && ColumnSum(diff[..], a, b, n1.len - n2.len, -borrowIn)
    modifies diff
    ensures borrow in {0, 1} && IsDigits(diff[..]) && Val(diff[..]) - borrow * P(diff.Length) == Val(a) + Val(b)
  {
    AlignedTop(a, n1, b, n2, -1, n1.len, s);
    borrow := SubBorrow(diff, n1.digits[..n1.len - n2.len], borrowIn, a, b);
    AllColumns(diff[..], a, b, -borrow);
  }

  method SubLoops(diff: array<int>, n1: BcNum, n2: BcNum, s: nat, ghost a: seq<int>, ghost b: seq<int>)
    returns (borrow: int)
    requires IsAligned(a, n1, 1, n1.len, s) && IsAligned(b, n2, -1, n1.len, s)
    requires diff.Length == n1.len + s && ZeroBelow(diff, diff.Length)
    modifies diff
    ensures borrow in {0, 1} && IsDigits(diff[..]) && Val(diff[..]) - borrow * P(diff.Length) == Val(a) + Val(b)
  {
    borrow := SubTail(diff, n1, n2, n1.len, s, a, b);
    borrow := SubCommon(diff, n1, n2, n1.len, s, borrow, a, b);
    borrow := SubTop(diff, n1, n2, s, borrow, a, b);
  }

  /** _bc_do_sub: the difference of the magnitudes, exact, when the first is the larger. */
  method DoSub(n1: BcNum, n2: BcNum, scaleMin: nat) returns (r: BcNum)
    requires n1.WellFormed() && n2.WellFormed() && n1.len >= 1 && n1.len >= n2.len
    requires n1.MagAt(Max(n1.scale, n2.scale)) >= n2.MagAt(Max(n1.scale, n2.scale))
    ensures r.Trimmed() && r.len >= 1 && r.sign == Plus && r.len <= n1.len
    ensures r.scale == Max(Max(n1.scale, n2.scale), scaleMin)
    ensures r.Mag() == n1.MagAt(r.scale) - n2.MagAt(r.scale)
  {
    hide P, Val;
    var s := Max(Max(n1.scale, n2.scale), scaleMin);
    var diff := new int[n1.len + s](_ => 0);
    ghost var a := Align(n1, 1, n1.len, s);
    ghost var b := Align(n2, -1, n1.len, s);
    var borrow := SubLoops(diff, n1, n2, s, a, b);
    NoBorrow(n1, n2, s, diff[..], borrow);
    r := RmLeadingZeros(BcNum(Plus, n1.len, s, diff[..]));
  }

  /** A borrow out of the top would make the difference negative. */
  lemma NoBorrow(n1: BcNum, n2: BcNum, s: nat, buf: seq<int>, borrow: int)
    requires n1.WellFormed() && n2.WellFormed() && s >= Max(n1.scale, n2.scale)
    requires n1.MagAt(Max(n1.scale, n2.scale)) >= n2.MagAt(Max(n1.scale, n2.scale))
    requires IsDigits(buf) && borrow in {0, 1}
    requires Val(buf) - borrow * P(|buf|) == n1.MagAt(s) - n2.MagAt(s)
    ensures borrow == 0
  {
    var m := Max(n1.scale, n2.scale);
    AtAt(n1, m, s);
    AtAt(n2, m, s);
    MulLe(n2.MagAt(m), n1.MagAt(m), P(s - m));
    ValBound(buf);
  }

  function Flip(s: Sign): Sign {
    if s == Plus then Minus else Plus
  }

  function Signed(s: Sign, m: int): int {
    if s == Plus then m else -m
  }

  /**
   The compare-and-subtract switch bc_add and bc_sub share: sign * (|n1| - |n2|).
   An empty operand occurs only inside a product, where it stands for zero.
   */
  method SubMagnitudes(n1: BcNum, n2: BcNum, sign: Sign, scaleMin: nat) returns (r: BcNum)
    requires n1.Trimmed() && n2.Trimmed() && (n1.len >= 1 || n2.len >= 1)
    ensures r.Trimmed() && 1 <= r.len <= Max(n1.len, n2.len)
    ensures r.scale == Max(Max(n1.scale, n2.scale), scaleMin)
    ensures r.Int() == Signed(sign, n1.MagAt(r.scale) - n2.MagAt(r.scale))
    ensures n1.len >= 1 && n2.len >= 1 ==> r.Valid()
  {
    var s := Max(n1.scale, n2.scale);
    var c := CompareMagnitude(n1, n2);
    assert c * n1.MagAt(s) >= c * n2.MagAt(s);
    if c < 0 {
      var d := DoSub(n2, n1, scaleMin);
      r := d.(sign := Flip(sign));
    } else if c > 0 {
      var d := DoSub(n1, n2, scaleMin);
      r := d.(sign := sign);
    } else {
      r := BcNum(Plus, 1, Max(s, scaleMin), Zeros(1 + Max(s, scaleMin)));
      ValZeros(r.digits);
      assert n1.MagAt(r.scale) == n2.MagAt(r.scale);
    }
    assert n1.len >= 1 && n2.len >= 1 ==> c == Sgn(n1.MagAt(r.scale) - n2.MagAt(r.scale));
  }

  /** bc_sub: the exact signed difference. */
  method Sub(n1: BcNum, n2: BcNum, scaleMin: nat) returns (r: BcNum)
    requires n1.Trimmed() && n2.Trimmed() && (n1.len >= 1 || n2.len >= 1)
    requires n1.sign != n2.sign ==> n1.len >= 1 && n2.len >= 1
    ensures r.Trimmed() && r.len >= 1
    ensures r.scale == Max(Max(n1.scale, n2.scale), scaleMin)
    ensures r.Int() == n1.At(r.scale) - n2.At(r.scale)
    ensures n1.Valid() && n2.Valid() ==> r.Valid()
    ensures n1.sign == n2.sign ==> r.len <= Max(n1.len, n2.len)
  {
    if n1.sign != n2.sign {
      var d := DoAdd(n1, n2, scaleMin);
      r := d.(sign := n1.sign);
      SumOfNonzero(n1, n2, r.scale);
    } else {
      r := SubMagnitudes(n1, n2, n1.sign, scaleMin);
    }
    AtSigned(n1, r.scale);
    AtSigned(n2, r.scale);
  }

  /** bc_add: the exact signed sum. */
  method Add(n1: BcNum, n2: BcNum, scaleMin: nat) returns (r: BcNum)
    requires n1.Trimmed() && n2.Trimmed() && n1.len >= 1 && n2.len >= 1
    ensures r.Trimmed() && r.len >= 1
    ensures r.scale == Max(Max(n1.scale, n2.scale), scaleMin)
    ensures r.Int() == n1.At(r.scale) + n2.At(r.scale)
    ensures n1.Valid() && n2.Valid() ==> r.Valid()
  {
    if n1.sign == n2.sign {
      var d := DoAdd(n1, n2, scaleMin);
      r := d.(sign := n1.sign);
      SumOfNonzero(n1, n2, r.scale);
    } else {
      r := SubMagnitudes(n1, n2, n1.sign, scaleMin);
    }
    AtSigned(n1, r.scale);
    AtSigned(n2, r.scale);
  }

  /** A sum of magnitudes vanishes only when both do. */
  lemma SumOfNonzero(n1: BcNum, n2: BcNum, s: nat)
    requires n1.WellFormed() && n2.WellFormed() && s >= n1.scale && s >= n2.scale
    ensures n1.MagAt(s) + n2.MagAt(s) == 0 ==> n1.Mag() == 0 && n2.Mag() == 0
  {
    MagAtNonneg(n1, s);
    MagAtNonneg(n2, s);
  }
}
