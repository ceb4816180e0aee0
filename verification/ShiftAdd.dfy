/** _bc_shift_addsub: add or subtract a shifted number inside an accumulator. */
module ShiftAdd {
  import opened Arith
  import opened Digits
  import opened Number

  /** Changing one digit changes the value by its weight. */
  lemma UpdateDigit(s: seq<int>, i: nat, d: int)
    requires i < |s|
    ensures Val(s[i := d]) == Val(s) + (d - s[i]) * P(|s| - i - 1)
  {
    hide P, Val;
    var t, tail, p := s[i := d], s[i + 1..], P(|s| - i - 1);
    ValSplit(s, i);
    ValSplit(t, i);
    assert t[..i] == s[..i];
    assert s[i..] == [s[i]] + tail && t[i..] == [d] + tail;
    ValCons(s[i], tail);
    ValCons(d, tail);
    MulDist(p, d - s[i], s[i]);
  }

  /** One step keeps total + carry in balance; c1, c2 are the carries with their sign. */
  lemma Balance(x: int, x2: int, p: int, d: int, d2: int, v: int, c1: int, c2: int, t: int)
    requires x + c1 * p == t && x2 == x + (d2 - d) * p && d2 + 10 * c2 == d + v + c1
    ensures x2 + c2 * (10 * p) == t + v * p
  {
    assert (d2 + 10 * c2) * p == (d + v + c1) * p;
    assert (d2 + 10 * c2) * p == d2 * p + c2 * (10 * p);
    assert (d + v + c1) * p == d * p + v * p + c1 * p;
    assert (d2 - d) * p == d2 * p - d * p;
  }

  /** The digit left in the column and the signed carry out of it. */
  function CarryDigit(t: int): (r: (int, int))
    requires -10 <= t <= 19
    ensures 0 <= r.0 <= 9 && -1 <= r.1 <= 1 && r.0 + 10 * r.1 == t
    ensures (t >= 0 ==> r.1 >= 0) && (t <= 9 ==> r.1 <= 0)
  {
    if t < 0 then (t + 10, -1) else if t > 9 then (t - 10, 1) else (t, 0)
  }

  /** A signed carry of the direction of the operation. */
  predicate CarryOk(c: int, sg: int) {
    c == 0 || c == sg
  }

  /** The accumulator is digits, and with the carry at weight 10^w it stands for total. */
  ghost predicate Balanced(accum: seq<int>, c: int, w: nat, total: int)
  {
    IsDigits(accum) && Val(accum) + c * P(w) == total
  }

  lemma BalancedStep(before: seq<int>, w: nat, v: int, c1: int, total: int, d2: int, c2: int)
    requires Balanced(before, c1, w, total) && w < |before| && 0 <= d2 <= 9
    requires d2 + 10 * c2 == before[|before| - 1 - w] + v + c1
    ensures Balanced(before[|before| - 1 - w := d2], c2, w + 1, total + v * P(w))
  {
    var i := |before| - 1 - w;
    UpdateDigit(before, i, d2);
    Balance(Val(before), Val(before[i := d2]), P(w), before[i], d2, v, c1, c2, total);
  }

  /** First loop: column by column while the operand has digits; carry is signed. */
  method AddSubColumns(accum: array<int>, d: seq<int>, shift: nat, sg: int) returns (carry: int)
    requires IsDigits(accum[..]) && IsDigits(d) && sg in {1, -1} && shift + |d| <= accum.Length
    modifies accum
    ensures CarryOk(carry, sg)
    ensures Balanced(accum[..], carry, shift + |d|, old(Val(accum[..])) + sg * Val(d) * P(shift))
  {
    hide P, Val;
    ghost var start := Val(accum[..]);
    var k := 0;
    carry := 0;
    EmptySuffix(d, |d|);
    while k < |d|
      invariant 0 <= k <= |d| && CarryOk(carry, sg)
      invariant Balanced(accum[..], carry, shift + k, start + sg * Val(d[|d| - k..]) * P(shift))
    {
      ghost var before, c, total := accum[..], carry, start + sg * Val(d[|d| - k..]) * P(shift);
      var i, v := accum.Length - 1 - shift - k, sg * d[|d| - 1 - k];
      var (digit, next) := CarryDigit(accum[i] + v + carry);
      accum[i], carry := digit, next;
      assert accum[..] == before[i := digit];
      BalancedStep(before, shift + k, v, c, total, digit, next);
      OperandStep(d, k, shift, sg);
      k := k + 1;
    }
    assert d[0..] == d;
  }

  lemma EmptySuffix(d: seq<int>, i: nat)
    requires i == |d|
    ensures Val(d[i..]) == 0
  {
  }

  lemma OperandStep(d: seq<int>, k: nat, shift: nat, sg: int)
    requires k < |d|
    ensures sg * Val(d[|d| - k - 1..]) * P(shift) ==
      sg * Val(d[|d| - k..]) * P(shift) + sg * d[|d| - 1 - k] * P(shift + k)
  {
    hide P, Val;
    var i := |d| - 1 - k;
    var x, y, p, q := d[i], Val(d[i + 1..]), P(k), P(shift);
    assert d[i..] == [d[i]] + d[i + 1..];
    ValCons(x, d[i + 1..]);
    PAdd(shift, k);
    calc {
      sg * (x * p + y) * q;
      { MulDist(sg, x * p, y); MulAssoc(sg, x, p); }
      (sg * x * p + sg * y) * q;
      { MulDist(q, sg * x * p, sg * y); }
      sg * x * p * q + sg * y * q;
      { MulAssoc(sg * x, p, q); assert p * q == q * p; }
      sg * x * (q * p) + sg * y * q;
    }
  }

  /** Second loop: let the carry run; it dies before the top digit because the total fits. */
  method RunCarry(accum: array<int>, carryIn: int, start: nat, sg: int, ghost total: int)
    requires IsDigits(accum[..]) && sg in {1, -1} && CarryOk(carryIn, sg)
    requires start <= accum.Length && Balanced(accum[..], carryIn, start, total) && 0 <= total < P(accum.Length)
    modifies accum
    ensures IsDigits(accum[..]) && Val(accum[..]) == total
  {
    var w, carry := start, carryIn;
    while carry != 0
      invariant start <= w <= accum.Length && CarryOk(carry, sg)
      invariant Balanced(accum[..], carry, w, total)
      decreases accum.Length - w
    {
      CarryInside(accum[..], carry, w, total);
      ghost var before, c := accum[..], carry;
      var i := accum.Length - 1 - w;
      var (digit, next) := CarryDigit(accum[i] + carry);
      accum[i], carry := digit, next;
      assert accum[..] == before[i := digit];
      BalancedStep(before, w, 0, c, total, digit, next);
      w := w + 1;
    }
  }

  /** A live carry is never past the top digit. */
  lemma CarryInside(accum: seq<int>, carry: int, w: nat, total: int)
    requires Balanced(accum, carry, w, total) && 0 <= total < P(|accum|) && carry in {1, -1} && w <= |accum|
    ensures w < |accum|
  {
    ValBound(accum);
  }

  /** The accumulator plus or minus val * 10^shift, for as long as the result is a number of its size. */
  method ShiftAddSub(accum: array<int>, val: BcNum, shift: nat, sub: bool)
    requires IsDigits(accum[..]) && val.WellFormed() && val.scale == 0 && val.len >= 1
    requires accum.Length >= shift + (if val.digits[0] == 0 then val.len - 1 else val.len)
    requires 0 <= Val(accum[..]) + (if sub then -val.Mag() else val.Mag()) * P(shift) < P(accum.Length)
    modifies accum
    ensures IsDigits(accum[..])
    ensures Val(accum[..]) == old(Val(accum[..])) + (if sub then -val.Mag() else val.Mag()) * P(shift)
  {
    var count, sg := val.len, if sub then -1 else 1;
    if val.digits[0] == 0 {
      count := count - 1;
    }
    var d := val.digits[val.len - count..];
    DropLeadingZero(val.digits, d);
    ghost var total := Val(accum[..]) + sg * val.Mag() * P(shift);
    var carry := AddSubColumns(accum, d, shift, sg);
    RunCarry(accum, carry, shift + |d|, sg, total);
  }

  lemma DropLeadingZero(s: seq<int>, d: seq<int>)
    requires IsDigits(s) && s != [] && d == if s[0] == 0 then s[1..] else s[0..]
    ensures IsDigits(d) && Val(d) == Val(s)
  {
    assert s == [s[0]] + s[1..] && s[0..] == s;
    ValCons(s[0], s[1..]);
  }
}
