/** The in-place part of a division step: subtract the multiple, add the divisor back if that was too much. */
module DivideWindow {
  import opened Arith
  import opened Digits
  import opened AddSub
  import opened DivideStep

  /** Everything outside [lo, hi) is as it was. */
  twostate predicate OnlyWindow(a: array<int>, lo: nat, hi: nat)
    reads a
  {
    lo <= hi <= a.Length && forall k :: 0 <= k < lo || hi <= k < a.Length ==> a[k] == old(a[k])
  }

  /** Multiply-and-subtract loop: num1[lo .. lo+len] minus mval, leaving the borrow. */
  method SubWindow(num1: array<int>, lo: nat, len: nat, mval: array<int>) returns (borrow: int)
    requires num1 != mval && lo + len + 1 <= num1.Length && len + 1 <= mval.Length
    requires IsDigits(num1[lo..lo + len + 1]) && IsDigits(mval[..len + 1])
    modifies num1
    ensures borrow in {0, 1} && IsDigits(num1[lo..lo + len + 1])
    ensures Val(num1[lo..lo + len + 1]) - borrow * P(len + 1) == old(Val(num1[lo..lo + len + 1])) - Val(mval[..len + 1])
    ensures OnlyWindow(num1, lo, lo + len + 1)
  {
    hide P, Val;
    var hi := lo + len + 1;
    ghost var a, m := num1[lo..hi], mval[..len + 1];
    ghost var b := seq(len + 1, k requires 0 <= k < len + 1 => -1 * m[k]);
    ValNegate(m, b, -1);
    borrow := 0;
    NoColumns(num1[lo..hi], a, b);
    var i := len + 1;
    while i > 0
      invariant 0 <= i <= len + 1 && borrow in {0, 1}
      invariant num1[lo..lo + i] == a[..i]
      invariant ColumnSum(num1[lo..hi], a, b, i, -borrow)
      invariant OnlyWindow(num1, lo, hi)
    {
      ghost var before, c := num1[lo..hi], borrow;
      i := i - 1;
      assert num1[lo + i] == num1[lo..lo + i + 1][i] == a[i];
      assert b[i] == -mval[i];
      var (digit, next) := BorrowDigit(num1[lo + i] - mval[i] - borrow);
      num1[lo + i], borrow := digit, next;
      assert num1[lo..hi][i + 1..] == before[i + 1..];
      assert num1[lo..hi][i] == digit;
      ColumnSumStep(before, num1[lo..hi], a, b, i, -c, -borrow);
    }
    AllColumns(num1[lo..hi], a, b, -borrow);
  }

  lemma NoColumns(buf: seq<int>, a: seq<int>, b: seq<int>)
    requires |buf| == |a| == |b|
    ensures ColumnSum(buf, a, b, |buf|, 0)
  {
    ZeroColumns(buf, a, b, |buf|);
  }

  /** One column of an addition: a digit and the carry out of it. */
  function SumDigit(val: int): (r: (int, int))
    requires 0 <= val <= 19
    ensures 0 <= r.0 <= 9 && r.1 in {0, 1} && r.0 + 10 * r.1 == val
  {
    if val > 9 then (val - 10, 1) else (val, 0)
  }

  /** Add-back loop: the divisor is added to the low len digits, the carry to the digit before them modulo 10. */
  method AddWindow(num1: array<int>, lo: nat, len: nat, num2: array<int>, o: nat) returns (ghost wrap: int)
    requires num1 != num2 && lo + len + 1 <= num1.Length && o + len <= num2.Length
    requires IsDigits(num1[lo..lo + len + 1]) && IsDigits(num2[o..o + len])
    modifies num1
    ensures wrap in {0, 1} && IsDigits(num1[lo..lo + len + 1])
    ensures Val(num1[lo..lo + len + 1]) + wrap * P(len + 1) == old(Val(num1[lo..lo + len + 1])) + Val(num2[o..o + len])
    ensures OnlyWindow(num1, lo, lo + len + 1)
  {
    hide P, Val;
    var hi := lo + len + 1;
    ghost var a, d := num1[lo..hi], num2[o..o + len];
    ghost var b := [0] + d;
    var carry, i := 0, len + 1;
    NoColumns(num1[lo..hi], a, b);
    while i > 1
      invariant 1 <= i <= len + 1 && carry in {0, 1}
      invariant num1[lo..lo + i] == a[..i] && num2[o..o + len] == d
      invariant ColumnSum(num1[lo..hi], a, b, i, carry)
      invariant OnlyWindow(num1, lo, hi)
    {
      ghost var before, c := num1[lo..hi], carry;
      i := i - 1;
      assert num1[lo + i] == num1[lo..lo + i + 1][i] == a[i];
      assert num2[o + i - 1] == d[i - 1] == b[i];
      var (digit, next) := SumDigit(num1[lo + i] + num2[o + i - 1] + carry);
      num1[lo + i], carry := digit, next;
      assert num1[lo..hi][i + 1..] == before[i + 1..];
      assert num1[lo..hi][i] == digit;
      ColumnSumStep(before, num1[lo..hi], a, b, i, c, carry);
    }
    assert num1[lo] == num1[lo..lo + 1][0] == a[0];
    wrap := AddTopDigit(num1, lo, hi, carry, a, b);
    ValCons(0, d);
  }

  /** The digit before the window takes the last carry. */
  method AddTopDigit(num1: array<int>, lo: nat, hi: nat, carry: int, ghost a: seq<int>, ghost b: seq<int>)
    returns (ghost wrap: int)
    requires lo < hi <= num1.Length && carry in {0, 1}
    requires ColumnSum(num1[lo..hi], a, b, 1, carry) && num1[lo] == a[0] && b[0] == 0 && 0 <= a[0] <= 9
    modifies num1
    ensures wrap in {0, 1} && IsDigits(num1[lo..hi])
    ensures Val(num1[lo..hi]) + wrap * P(hi - lo) == Val(a) + Val(b)
    ensures OnlyWindow(num1, lo, hi)
  {
    hide P, Val;
    ghost var before := num1[lo..hi];
    wrap := if carry == 1 && num1[lo] == 9 then 1 else 0;
    if carry == 1 {
      num1[lo] := (num1[lo] + 1) % 10;
    }
    assert num1[lo..hi][1..] == before[1..];
    assert num1[lo..hi][0] == num1[lo];
    ColumnSumStep(before, num1[lo..hi], a, b, 0, carry, wrap);
    AllColumns(num1[lo..hi], a, b, wrap);
  }

  /** A guess at most one too large: subtracting borrows exactly when it is, and one add-back repairs it. */
  lemma CorrectDigit(u: int, v: int, g: int, borrow: int, w: int, top: int)
    requires v > 0 && 0 <= u < 10 * v && u / v <= g <= u / v + 1 && 10 * v <= top
    requires borrow in {0, 1} && 0 <= w < top && w - borrow * top == u - g * v
    ensures borrow == (if g == u / v then 0 else 1)
    ensures borrow == 0 ==> w == u % v
    ensures borrow == 1 ==> w + v - top == u % v
  {
    DivBracket(u, v);
    assert u == (u / v) * v + u % v;
    MulDist(v, u / v, 1);
  }

  lemma ThreeDigits(s: seq<int>)
    requires IsDigits(s) && |s| >= 3
    ensures (100 * s[0] + 10 * s[1] + s[2]) * P(|s| - 3) <= Val(s) < (100 * s[0] + 10 * s[1] + s[2] + 1) * P(|s| - 3)
  {
    hide P, Val;
    ValSplit(s, 3);
    ValBound(s[3..]);
    SmallVals(s);
    MulDist(P(|s| - 3), 100 * s[0] + 10 * s[1] + s[2], 1);
  }

  lemma TwoDigits(s: seq<int>)
    requires IsDigits(s) && |s| >= 2
    ensures (10 * s[0] + s[1]) * P(|s| - 2) <= Val(s) < (10 * s[0] + s[1] + 1) * P(|s| - 2)
  {
    hide P, Val;
    ValSplit(s, 2);
    ValBound(s[2..]);
    SmallVals(s);
    MulDist(P(|s| - 2), 10 * s[0] + s[1], 1);
  }

  lemma SmallVals(s: seq<int>)
    ensures |s| >= 2 ==> Val(s[..2]) == 10 * s[0] + s[1]
    ensures |s| >= 3 ==> Val(s[..3]) == 100 * s[0] + 10 * s[1] + s[2]
  {
    if |s| >= 2 {
      assert s[..2] == [s[0]] + [s[1]];
      ValSnoc([s[0]], s[1]);
      ValSingle(s[0]);
    }
    if |s| >= 3 {
      assert s[..3] == s[..2] + [s[2]];
      ValSnoc(s[..2], s[2]);
    }
  }

  /** The digits the guess looks at are the leading ones of window and divisor, each taken one place further. */
  lemma LeadingDigits(w: seq<int>, x: seq<int>)
    requires IsDigits(w) && IsDigits(x) && |w| == |x| + 1 && |x| >= 2 && x[|x| - 1] == 0 && x[0] >= 5
    requires Val(w[..|w| - 1]) < 10 * Val(x[..|x| - 1])
    ensures Leading(Val(w[..|w| - 1]), w[|w| - 1], Val(x[..|x| - 1]), P(|x| - 2), w[0], w[1], w[2], x[0], x[1])
  {
    ThreeDigits(w);
    TwoDigits(x);
    ValBound(w[..|w| - 1]);
    ValBound(x[..|x| - 1]);
  }

  /** Multiply the divisor by the guess and subtract: the borrow tells whether that was too much. */
  method MultiplyAndSubtract(num1: array<int>, qdig: nat, len2: nat, num2: array<int>, o: nat, mval: array<int>,
    qguess: int)
    returns (borrow: int)
    requires num1 != num2 && num1 != mval && num2 != mval
    requires qdig + len2 + 1 <= num1.Length && o + len2 <= num2.Length && mval.Length == len2 + 1
    requires IsDigits(num1[qdig..qdig + len2 + 1]) && IsDigits(num2[o..o + len2]) && 0 <= qguess <= 9
    modifies num1, mval
    ensures borrow in {0, 1} && IsDigits(num1[qdig..qdig + len2 + 1])
    ensures Val(num1[qdig..qdig + len2 + 1]) - borrow * P(len2 + 1)
      == old(Val(num1[qdig..qdig + len2 + 1])) - qguess * Val(num2[o..o + len2])
    ensures OnlyWindow(num1, qdig, qdig + len2 + 1)
  {
    hide P, Val;
    borrow := 0;
    if qguess != 0 {
      mval[0] := 0;
      ghost var c := OneMult(num2, o, len2, qguess, mval, 1);
      assert mval[..len2 + 1] == [c] + mval[1..1 + len2];
      ValCons(c, mval[1..1 + len2]);
      borrow := SubWindow(num1, qdig, len2, mval);
    }
  }

  /** One turn of the division loop: the quotient digit, and the window reduced to the remainder. */
  method QuotientDigit(num1: array<int>, qdig: nat, len2: nat, num2: array<int>, o: nat, mval: array<int>)
    returns (q: int)
    requires num1 != num2 && num1 != mval && num2 != mval
    requires len2 >= 1 && qdig + len2 + 2 <= num1.Length && o + len2 + 1 <= num2.Length && mval.Length == len2 + 1
    requires IsDigits(num1[qdig..qdig + len2 + 2]) && IsDigits(num2[o..o + len2 + 1])
    requires num2[o] >= 5 && num2[o + len2] == 0
    requires Val(num1[qdig..qdig + len2 + 1]) < 10 * Val(num2[o..o + len2])
    modifies num1, mval
    ensures Val(num2[o..o + len2]) > 0
    ensures q == old(Val(num1[qdig..qdig + len2 + 1])) / Val(num2[o..o + len2])
    ensures 0 <= q <= 9
    ensures IsDigits(num1[qdig..qdig + len2 + 1])
    ensures Val(num1[qdig..qdig + len2 + 1]) == old(Val(num1[qdig..qdig + len2 + 1])) % Val(num2[o..o + len2])
    ensures OnlyWindow(num1, qdig, qdig + len2 + 1)
  {
    hide P, Val;
    ghost var u, v := Val(num1[qdig..qdig + len2 + 1]), Val(num2[o..o + len2]);
    q := GuessDigit(num1, qdig, len2, num2, o);
    assert num1[qdig..qdig + len2 + 1] == num1[qdig..qdig + len2 + 2][..len2 + 1];
    assert num2[o..o + len2] == num2[o..o + len2 + 1][..len2];
    WindowSize(num1[qdig..qdig + len2 + 1], num2[o..o + len2]);
    TrueDigitBound(u, v, u / v);
    q := SettleDigit(num1, qdig, len2, num2, o, mval, q);
  }

  /** The guess for one digit, from three digits of the window and two of the divisor. */
  method GuessDigit(num1: array<int>, qdig: nat, len2: nat, num2: array<int>, o: nat) returns (q: int)
    requires len2 >= 1 && qdig + len2 + 2 <= num1.Length && o + len2 + 1 <= num2.Length
    requires IsDigits(num1[qdig..qdig + len2 + 2]) && IsDigits(num2[o..o + len2 + 1])
    requires num2[o] >= 5 && num2[o + len2] == 0
    requires Val(num1[qdig..qdig + len2 + 1]) < 10 * Val(num2[o..o + len2])
    ensures Val(num2[o..o + len2]) > 0 && 0 <= q <= 9
    ensures q - 1 <= Val(num1[qdig..qdig + len2 + 1]) / Val(num2[o..o + len2]) <= q
  {
    hide P, Val, Guess;
    ghost var w, x := num1[qdig..qdig + len2 + 2], num2[o..o + len2 + 1];
    assert w[..len2 + 1] == num1[qdig..qdig + len2 + 1] && x[..len2] == num2[o..o + len2];
    LeadingDigits(w, x);
    GuessIsClose(Val(w[..len2 + 1]), w[len2 + 1], Val(x[..len2]), P(len2 - 1), w[0], w[1], w[2], x[0], x[1]);
    q := Guess(num1[qdig], num1[qdig + 1], num1[qdig + 2], num2[o], num2[o + 1]);
  }

  /** From a close guess to the true digit. */
  method SettleDigit(num1: array<int>, qdig: nat, len2: nat, num2: array<int>, o: nat, mval: array<int>, guess: int)
    returns (q: int)
    requires num1 != num2 && num1 != mval && num2 != mval
    requires qdig + len2 + 1 <= num1.Length && o + len2 <= num2.Length && mval.Length == len2 + 1
    requires IsDigits(num1[qdig..qdig + len2 + 1]) && IsDigits(num2[o..o + len2])
    requires Val(num2[o..o + len2]) > 0 && Val(num1[qdig..qdig + len2 + 1]) < 10 * Val(num2[o..o + len2])
    requires 0 <= guess <= 9 && guess - 1 <= Val(num1[qdig..qdig + len2 + 1]) / Val(num2[o..o + len2]) <= guess
    modifies num1, mval
    ensures q == old(Val(num1[qdig..qdig + len2 + 1])) / Val(num2[o..o + len2])
    ensures IsDigits(num1[qdig..qdig + len2 + 1])
    ensures Val(num1[qdig..qdig + len2 + 1]) == old(Val(num1[qdig..qdig + len2 + 1])) % Val(num2[o..o + len2])
    ensures OnlyWindow(num1, qdig, qdig + len2 + 1)
  {
    hide P, Val;
    ghost var u, v := Val(num1[qdig..qdig + len2 + 1]), Val(num2[o..o + len2]);
    q := guess;
    WindowSize(num1[qdig..qdig + len2 + 1], num2[o..o + len2]);
    var borrow := MultiplyAndSubtract(num1, qdig, len2, num2, o, mval, q);
    WindowSize(num1[qdig..qdig + len2 + 1], num2[o..o + len2]);
    CorrectDigit(u, v, q, borrow, Val(num1[qdig..qdig + len2 + 1]), P(len2 + 1));
    if borrow == 1 {
      q := q - 1;
      ghost var wrap := AddWindow(num1, qdig, len2, num2, o);
      WindowSize(num1[qdig..qdig + len2 + 1], num2[o..o + len2]);
      assert wrap == 1;
    }
  }

  lemma WindowSize(w: seq<int>, x: seq<int>)
    requires IsDigits(w) && IsDigits(x) && |w| == |x| + 1
    ensures 0 <= Val(w) < P(|w|) && 0 <= 10 * Val(x) < P(|w|)
  {
    ValBound(w);
    ValBound(x);
  }
}
