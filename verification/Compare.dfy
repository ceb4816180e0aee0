/** _bc_do_compare: lengths first, then digit by digit, is numeric order on trimmed numbers. */
module Compare {
  import opened Arith
  import opened Digits
  import opened Number

  function Sgn(x: int): int {
    if x > 0 then 1 else if x < 0 then -1 else 0
  }

  /** The digits of n written out to s decimals. */
  function Padded(n: BcNum, s: nat): seq<int>
    requires n.WellFormed() && s >= n.scale
  {
    n.digits + Zeros(s - n.scale)
  }

  lemma PaddedIsMagAt(n: BcNum, s: nat)
    requires n.WellFormed() && s >= n.scale
    ensures IsDigits(Padded(n, s)) && |Padded(n, s)| == n.len + s
    ensures Val(Padded(n, s)) == n.MagAt(s)
  {
    ValAppendZeros(n.digits, s - n.scale);
  }

  /** The first differing digit decides. */
  lemma LexGreater(a: seq<int>, b: seq<int>, i: nat)
    requires IsDigits(a) && IsDigits(b) && |a| == |b| && i < |a|
    requires a[..i] == b[..i] && a[i] > b[i]
    ensures Val(a) > Val(b)
  {
    hide P, Val;
    var p := P(|a| - i - 1);
    ValSplit(a, i);
    ValSplit(b, i);
    ValLeading(a[i..]);
    ValLeading(b[i..]);
    MulLe(b[i] + 1, a[i], p);
  }

  /** A longer trimmed number with an integer part is larger. */
  lemma LongerIsLarger(n: BcNum, m: BcNum, s: nat)
    requires n.Trimmed() && m.Trimmed() && n.len > m.len && s >= n.scale && s >= m.scale
    ensures n.MagAt(s) >= m.MagAt(s)
    ensures m.len >= 1 ==> n.MagAt(s) > m.MagAt(s)
  {
    var a, b := Padded(n, s), Padded(m, s);
    PaddedIsMagAt(n, s);
    PaddedIsMagAt(m, s);
    ValBound(b);
    ValBound(a);
    if m.len >= 1 {
      ValLeading(a);
      PMono(|b|, |a| - 1);
      MulMono(1, a[0], P(|a| - 1), P(|a| - 1));
    } else {
      assert b == Zeros(s);
      ValZeros(b);
    }
  }

  /** Magnitude comparison. On an empty operand the answer is only non-strict. */
  method CompareMagnitude(n1: BcNum, n2: BcNum) returns (r: int)
    requires n1.Trimmed() && n2.Trimmed()
    ensures r in {-1, 0, 1}
    ensures n1.len >= 1 && n2.len >= 1 ==>
      forall s: nat :: s >= n1.scale && s >= n2.scale ==> r == Sgn(n1.MagAt(s) - n2.MagAt(s))
    ensures forall s: nat :: s >= n1.scale && s >= n2.scale ==> r * n1.MagAt(s) >= r * n2.MagAt(s)
    ensures r >= 0 ==> n1.len >= n2.len
    ensures r <= 0 ==> n1.len <= n2.len
  {
    if n1.len != n2.len {
      forall s: nat | s >= n1.scale && s >= n2.scale
        ensures n1.len > n2.len ==> n1.MagAt(s) >= n2.MagAt(s) && (n2.len >= 1 ==> n1.MagAt(s) > n2.MagAt(s))
        ensures n2.len > n1.len ==> n2.MagAt(s) >= n1.MagAt(s) && (n1.len >= 1 ==> n2.MagAt(s) > n1.MagAt(s))
      {
        if n1.len > n2.len {
          LongerIsLarger(n1, n2, s);
        } else {
          LongerIsLarger(n2, n1, s);
        }
      }
      return if n1.len > n2.len then 1 else -1;
    }
    r := CompareDigits(n1, n2);
  }

  /** The digit loops of _bc_do_compare, once the integer lengths agree. */
  method CompareDigits(n1: BcNum, n2: BcNum) returns (r: int)
    requires n1.WellFormed() && n2.WellFormed() && n1.len == n2.len
    ensures r in {-1, 0, 1}
    ensures forall s: nat :: s >= n1.scale && s >= n2.scale ==> r == Sgn(n1.MagAt(s) - n2.MagAt(s))
  {
    var count, i := n1.len + Min(n1.scale, n2.scale), 0;
    while count > 0 && n1.digits[i] == n2.digits[i]
      invariant count >= 0 && i >= 0 && count + i == n1.len + Min(n1.scale, n2.scale)
      invariant n1.digits[..i] == n2.digits[..i]
    {
      assert n1.digits[..i + 1] == n1.digits[..i] + [n1.digits[i]];
      assert n2.digits[..i + 1] == n2.digits[..i] + [n2.digits[i]];
      i := i + 1;
      count := count - 1;
    }
    if count != 0 {
      DecideAll(n1, n2, i);
      return if n1.digits[i] > n2.digits[i] then 1 else -1;
    }
    if n1.scale > n2.scale {
      r := TailCheck(n1, n2, i);
    } else {
      var q := TailCheck(n2, n1, i);
      r := -q;
    }
  }

  /** The digits n has beyond the end of m: any nonzero one makes n the larger. */
  method TailCheck(n: BcNum, m: BcNum, start: nat) returns (r: int)
    requires n.WellFormed() && m.WellFormed() && n.len == m.len && n.scale >= m.scale
    requires start == m.len + m.scale && n.digits[..start] == m.digits[..start]
    ensures r in {0, 1}
    ensures forall s: nat :: s >= n.scale ==> r == Sgn(n.MagAt(s) - m.MagAt(s))
  {
    var i := start;
    while i < n.len + n.scale
      invariant start <= i <= n.len + n.scale
      invariant forall k :: start <= k < i ==> n.digits[k] == 0
    {
      if n.digits[i] != 0 {
        forall s: nat | s >= n.scale ensures n.MagAt(s) > m.MagAt(s) {
          PaddedIsMagAt(n, s);
          PaddedIsMagAt(m, s);
          assert Padded(n, s)[..i] == Padded(m, s)[..i];
          LexGreater(Padded(n, s), Padded(m, s), i);
        }
        return 1;
      }
      i := i + 1;
    }
    forall s: nat | s >= n.scale ensures n.MagAt(s) == m.MagAt(s) {
      PaddedIsMagAt(n, s);
      PaddedIsMagAt(m, s);
      assert Padded(n, s) == Padded(m, s);
    }
    r := 0;
  }

  lemma DecideAll(n1: BcNum, n2: BcNum, i: nat)
    requires n1.WellFormed() && n2.WellFormed() && n1.len == n2.len
    requires i < |n1.digits| && i < |n2.digits|
    requires n1.digits[..i] == n2.digits[..i] && n1.digits[i] != n2.digits[i]
    ensures forall s: nat :: s >= n1.scale && s >= n2.scale ==>
      Sgn(n1.MagAt(s) - n2.MagAt(s)) == if n1.digits[i] > n2.digits[i] then 1 else -1
  {
    forall s: nat | s >= n1.scale && s >= n2.scale
      ensures Sgn(n1.MagAt(s) - n2.MagAt(s)) == if n1.digits[i] > n2.digits[i] then 1 else -1
    {
      PaddedIsMagAt(n1, s);
      PaddedIsMagAt(n2, s);
      assert Padded(n1, s)[..i] == Padded(n2, s)[..i];
      if n1.digits[i] > n2.digits[i] {
        LexGreater(Padded(n1, s), Padded(n2, s), i);
      } else {
        LexGreater(Padded(n2, s), Padded(n1, s), i);
      }
    }
  }

  /** Zeros of different signs, as cutting digits off can make them. */
  predicate OppositeZeros(n1: BcNum, n2: BcNum) {
    n1.sign != n2.sign && n1.Mag() == 0 && n2.Mag() == 0
  }

  /**
   bc_compare: the sign of the difference, unless both are zero and one of them negative; then the positive zero
   counts as larger.
   */
  method Compare(n1: BcNum, n2: BcNum) returns (r: int)
    requires n1.Trimmed() && n1.len >= 1 && n2.Trimmed() && n2.len >= 1
    ensures forall s: nat :: s >= n1.scale && s >= n2.scale ==>
      (r == Sgn(n1.At(s) - n2.At(s)) <==> !OppositeZeros(n1, n2))
    ensures OppositeZeros(n1, n2) ==> r == if n1.sign == Plus then 1 else -1
  {
    forall s: nat | s >= n1.scale && s >= n2.scale
      ensures n1.MagAt(s) >= 0 && n2.MagAt(s) >= 0
      ensures n1.MagAt(s) == 0 <==> n1.Mag() == 0
      ensures n2.MagAt(s) == 0 <==> n2.Mag() == 0
      ensures n1.At(s) == if n1.sign == Plus then n1.MagAt(s) else -n1.MagAt(s)
      ensures n2.At(s) == if n2.sign == Plus then n2.MagAt(s) else -n2.MagAt(s)
    {
      MagAtNonneg(n1, s);
      MagAtNonneg(n2, s);
      AtSigned(n1, s);
      AtSigned(n2, s);
    }
    if n1.sign != n2.sign {
      return if n1.sign == Plus then 1 else -1;
    }
    var c := CompareMagnitude(n1, n2);
    r := if n1.sign == Plus then c else -c;
  }

  /** Minus zero, as "-0.5" is read at scale 0, compares below zero. */
  method MinusZeroBelow() returns (r: int)
    ensures BcNum(Minus, 1, 0, [0]).Int() == Small(0).Int() && r == -1
  {
    ValSingle(0);
    r := Compare(BcNum(Minus, 1, 0, [0]), Small(0));
  }

  /** Order by bc_compare is the order of the values. */
  lemma SgnIsOrder(n1: BcNum, n2: BcNum, s: nat)
    requires s >= n1.scale && s >= n2.scale
    ensures Sgn(n1.At(s) - n2.At(s)) == 0 <==> n1.Value() == n2.Value()
    ensures Sgn(n1.At(s) - n2.At(s)) < 0 <==> n1.Value() < n2.Value()
  {
    AtIsValue(n1, s);
    AtIsValue(n2, s);
    RatioOrder(n1.At(s) as real, n2.At(s) as real, P(s) as real);
  }

  lemma RatioOrder(x: real, y: real, p: real)
    requires p > 0.0
    ensures x / p == y / p <==> x == y
    ensures x / p < y / p <==> x < y
  {
    assert (x / p) * p == x && (y / p) * p == y;
  }
}
