/** One digit of bc_divide: guess, multiply and subtract, and at most one correction. */
module DivideStep {
  import opened Arith
  import opened Digits
  import opened AddSub

  /** One column of a one-digit multiplication. */
  lemma MulColumn(p: int, x: int, digit: int, carry: int, v: int, w: int)
    requires v + carry * p == w * digit
    ensures ((x * digit + carry) % 10 * p + v) + (x * digit + carry) / 10 * (10 * p) == (x * p + w) * digit
  {
    var t := x * digit + carry;
    var r, q := t % 10, t / 10;
    assert r + 10 * q == t;
    assert (r + 10 * q) * p == r * p + q * (10 * p);
    assert (x * p + w) * digit == x * digit * p + w * digit;
    assert t * p == x * digit * p + carry * p;
  }

  /** Digits i.. of the product are written; carry is still to be added above them. */
  ghost predicate Multiplied(buf: seq<int>, src: seq<int>, digit: int, i: int, carry: int)
  {
    && |buf| == |src| && 0 <= i <= |src| && 0 <= carry <= 9
    && IsDigits(buf[i..])
    && Val(buf[i..]) + carry * P(|buf| - i) == Val(src[i..]) * digit
  }

  lemma MultipliedStep(before: seq<int>, buf: seq<int>, src: seq<int>, digit: int, i: int, carry: int)
    requires 0 <= i < |src| && Multiplied(before, src, digit, i + 1, carry)
    requires IsDigits(src) && 0 <= digit <= 9
    requires |buf| == |before| && buf[i + 1..] == before[i + 1..] && buf[i] == (src[i] * digit + carry) % 10
    ensures Multiplied(buf, src, digit, i, (src[i] * digit + carry) / 10)
  {
    hide P, Val;
    SuffixCons(buf, i);
    SuffixCons(src, i);
    MulColumn(P(|buf| - i - 1), src[i], digit, carry, Val(buf[i + 1..]), Val(src[i + 1..]));
    PStep(|buf| - i - 1);
    MulMono(0, src[i], 0, digit);
    MulMono(src[i], 9, digit, 9);
    forall k | 0 <= k < |buf[i..]| ensures 0 <= buf[i..][k] <= 9 {
      if k > 0 {
        assert buf[i..][k] == buf[i + 1..][k - 1];
      }
    }
  }

  lemma PStep(n: nat)
    ensures P(n + 1) == 10 * P(n)
  {
  }

  /** The multiplication loop of _one_mult; num and result may be the same place. */
  method MultLoop(num: array<int>, nlo: nat, size: nat, digit: int, result: array<int>, rlo: nat) returns (carry: int)
    requires nlo + size <= num.Length && rlo + size <= result.Length && (num == result ==> nlo == rlo)
    requires IsDigits(num[nlo..nlo + size]) && 0 <= digit <= 9
    modifies result
    ensures Multiplied(result[rlo..rlo + size], old(num[nlo..nlo + size]), digit, 0, carry)
    ensures forall k :: 0 <= k < rlo || rlo + size <= k < result.Length ==> result[k] == old(result[k])
  {
    hide P, Val;
    ghost var src := num[nlo..nlo + size];
    var i := size;
    carry := 0;
    MultipliedNone(result[rlo..rlo + size], src, digit);
    while i > 0
      invariant 0 <= i <= size
      invariant num[nlo..nlo + i] == src[..i]
      invariant Multiplied(result[rlo..rlo + size], src, digit, i, carry)
      invariant forall k :: 0 <= k < rlo || rlo + size <= k < result.Length ==> result[k] == old(result[k])
    {
      ghost var before, c := result[rlo..rlo + size], carry;
      i := i - 1;
      assert num[nlo + i] == num[nlo..nlo + i + 1][i];
      var value := num[nlo + i] * digit + carry;
      result[rlo + i] := value % 10;
      carry := value / 10;
      assert result[rlo..rlo + size][i + 1..] == before[i + 1..];
      MultipliedStep(before, result[rlo..rlo + size], src, digit, i, c);
    }
  }

  lemma MultipliedNone(buf: seq<int>, src: seq<int>, digit: int)
    requires |buf| == |src|
    ensures Multiplied(buf, src, digit, |src|, 0)
  {
    assert buf[|src|..] == [] && src[|src|..] == [];
  }

  lemma MultipliedAll(buf: seq<int>, src: seq<int>, digit: int, carry: int)
    requires Multiplied(buf, src, digit, 0, carry)
    ensures IsDigits(buf) && Val(buf) + carry * P(|buf|) == Val(src) * digit
  {
    assert buf[0..] == buf && src[0..] == src;
  }

  lemma MultipliedTrivially(buf: seq<int>, src: seq<int>, digit: int)
    requires |buf| == |src| && IsDigits(src) && digit in {0, 1}
    requires forall k :: 0 <= k < |buf| ==> buf[k] == src[k] * digit
    ensures IsDigits(buf) && Val(buf) == Val(src) * digit
  {
    if digit == 0 {
      ValZeros(buf);
    } else {
      assert buf == src;
    }
  }

  /** _one_mult: the product by one digit; a carry goes to the place before the result. */
  method OneMult(num: array<int>, nlo: nat, size: nat, digit: int, result: array<int>, rlo: nat)
    returns (ghost carry: int)
    requires nlo + size <= num.Length && rlo + size <= result.Length && (num == result ==> nlo == rlo)
    requires IsDigits(num[nlo..nlo + size]) && 0 <= digit <= 9
    requires rlo >= 1 || Val(num[nlo..nlo + size]) * digit < P(size)
    modifies result
    ensures 0 <= carry <= 9 && IsDigits(result[rlo..rlo + size])
    ensures Val(result[rlo..rlo + size]) + carry * P(size) == old(Val(num[nlo..nlo + size])) * digit
    ensures rlo >= 1 ==> result[rlo - 1] == if carry == 0 then old(result[rlo - 1]) else carry
    ensures forall k :: 0 <= k < rlo - 1 || rlo + size <= k < result.Length ==> result[k] == old(result[k])
  {
    hide P, Val;
    ghost var src := num[nlo..nlo + size];
    if digit == 0 || digit == 1 {
      carry := 0;
      forall k | 0 <= k < size {
        result[rlo + k] := num[nlo + k] * digit;
      }
      MultipliedTrivially(result[rlo..rlo + size], src, digit);
    } else {
      var c := MultLoop(num, nlo, size, digit, result, rlo);
      carry := c;
      MultipliedAll(result[rlo..rlo + size], src, digit, c);
      CarryHasRoom(result[rlo..rlo + size], c, Val(src) * digit, rlo >= 1);
      ghost var done := result[rlo..rlo + size];
      if c != 0 {
        result[rlo - 1] := c;
      }
      assert result[rlo..rlo + size] == done;
    }
  }

  lemma CarryHasRoom(buf: seq<int>, c: int, w: int, room: bool)
    requires IsDigits(buf) && c >= 0 && Val(buf) + c * P(|buf|) == w && (room || w < P(|buf|))
    ensures c == 0 || room
  {
    ValBound(buf);
    if w < P(|buf|) {
      NoCarry(Val(buf), c, P(|buf|), w);
    }
  }

  // ---------------------------------------------------------------- the guess

  /** First guess from the leading digits. */
  function FirstGuess(u0: int, u1: int, v0: int): int
    requires v0 > 0
  {
    if v0 == u0 then 9 else (u0 * 10 + u1) / v0
  }

  /** The two-digit test of a guess. */
  predicate TooBig(u0: int, u1: int, u2: int, v0: int, v1: int, q: int) {
    v1 * q > (u0 * 10 + u1 - v0 * q) * 10 + u2
  }

  /** The guess after both tests. */
  function Guess(u0: int, u1: int, u2: int, v0: int, v1: int): int
    requires v0 > 0
  {
    var q := FirstGuess(u0, u1, v0);
    if TooBig(u0, u1, u2, v0, v1, q) then
      if TooBig(u0, u1, u2, v0, v1, q - 1) then q - 2 else q - 1
    else q
  }

  /** Three leading digits of the window and two of the divisor, with what follows them: p is the weight below. */
  ghost predicate Leading(u: int, d: int, v: int, p: int, u0: int, u1: int, u2: int, v0: int, v1: int)
  {
    && 0 <= u0 <= 9 && 0 <= u1 <= 9 && 0 <= u2 <= 9 && 5 <= v0 <= 9 && 0 <= v1 <= 9 && 0 <= d <= 9
    && p >= 1 && v > 0 && 0 <= u < 10 * v
    && (100 * u0 + 10 * u1 + u2) * p <= 10 * u + d < (100 * u0 + 10 * u1 + u2 + 1) * p
    && (10 * v0 + v1) * p <= 10 * v < (10 * v0 + v1 + 1) * p
  }

  /** One more digit of each side does not change which multiples fit. */
  lemma MultipleFits(u: int, d: int, v: int, g: int)
    requires v > 0 && u >= 0 && 0 <= d <= 9
    ensures g * (10 * v) > 10 * u + d <==> g > u / v
  {
    DivBracket(u, v);
    assert g * (10 * v) == 10 * (g * v);
    if g > u / v {
      MulLe(u / v + 1, g, v);
      MulDist(v, u / v, 1);
    } else {
      MulLe(g, u / v, v);
    }
  }

  /** Bounds on a number by its leading digits b, multiplied through. */
  lemma ScaledBounds(g: nat, b: int, p: nat, w: int)
    requires b * p <= w < (b + 1) * p
    ensures (g * b) * p <= g * w <= (g * (b + 1)) * p
  {
    MulAssoc(g, b, p);
    MulAssoc(g, b + 1, p);
    ScaleLe(g, b * p, w);
    ScaleLe(g, w, (b + 1) * p);
  }

  lemma ScaleLe(g: nat, x: int, y: int)
    requires x <= y
    ensures g * x <= g * y
  {
  }

  lemma LeadingOrder(u: int, d: int, v: int, p: int, u0: int, u1: int, u2: int, v0: int, v1: int)
    requires Leading(u, d, v, p, u0, u1, u2, v0, v1)
    ensures u0 <= v0
  {
    var a, b := 100 * u0 + 10 * u1 + u2, 10 * v0 + v1;
    ScaledBounds(10, b, p, 10 * v);
    MulCancelLt(a, 10 * (b + 1), p);
  }

  /** The first guess is never below the true digit, and at most two above it. */
  lemma FirstGuessRange(u: int, d: int, v: int, p: int, u0: int, u1: int, u2: int, v0: int, v1: int)
    requires Leading(u, d, v, p, u0, u1, u2, v0, v1)
    ensures u / v <= FirstGuess(u0, u1, v0) <= 9
    ensures FirstGuess(u0, u1, v0) <= u / v + 2
    ensures FirstGuess(u0, u1, v0) * v0 <= u0 * 10 + u1
  {
    LeadingOrder(u, d, v, p, u0, u1, u2, v0, v1);
    var g, q := FirstGuess(u0, u1, v0), u / v;
    DivBracket(u, v);
    GuessTimesLead(u0, u1, v0, g);
    TrueDigitBound(u, v, q);
    if u0 != v0 {
      NotBelow(u, d, v, p, u0, u1, u2, v0, v1, q);
      DivAtLeast(u0 * 10 + u1, v0, q);
    }
    if g >= 2 {
      AtMostTwoAbove(u, d, v, p, u0, u1, u2, v0, v1, g);
    }
  }

  lemma TrueDigitBound(u: int, v: int, q: int)
    requires v > 0 && q == u / v && 0 <= u < 10 * v
    ensures 0 <= q <= 9
  {
    DivBracket(u, v);
    MulCancelLt(q, 10, v);
  }

  lemma GuessTimesLead(u0: int, u1: int, v0: int, g: int)
    requires 0 <= u0 <= v0 <= 9 && 0 <= u1 <= 9 && v0 >= 5 && g == FirstGuess(u0, u1, v0)
    ensures 0 <= g <= 9 && g * v0 <= u0 * 10 + u1
  {
    if u0 != v0 {
      DivBracket(u0 * 10 + u1, v0);
      MulCancelLt(g, 10, v0);
    }
  }

  lemma DivAtLeast(x: int, d: int, q: int)
    requires d > 0 && q * d <= x
    ensures q <= x / d
  {
    DivBracket(x, d);
    MulDist(d, x / d, 1);
    MulCancelLt(q, x / d + 1, d);
  }

  lemma NotBelow(u: int, d: int, v: int, p: int, u0: int, u1: int, u2: int, v0: int, v1: int, q: int)
    requires Leading(u, d, v, p, u0, u1, u2, v0, v1) && 0 <= q == u / v
    ensures q * v0 <= u0 * 10 + u1
  {
    var a, b := 100 * u0 + 10 * u1 + u2, 10 * v0 + v1;
    MultipleFits(u, d, v, q);
    ScaledBounds(q, b, p, 10 * v);
    MulCancelLt(q * b, a + 1, p);
    LeadFits(q, u0, u1, u2, v0, v1);
  }

  lemma AtMostTwoAbove(u: int, d: int, v: int, p: int, u0: int, u1: int, u2: int, v0: int, v1: int, g: int)
    requires Leading(u, d, v, p, u0, u1, u2, v0, v1) && 2 <= g <= 9 && g * v0 <= u0 * 10 + u1
    ensures g - 2 <= u / v
  {
    var a, b := 100 * u0 + 10 * u1 + u2, 10 * v0 + v1;
    TwoBelowFits(g, u0, u1, u2, v0, v1);
    SmallMultipleFits(u, d, v, p, a, b, g - 2);
  }

  lemma TwoBelowFits(g: int, u0: int, u1: int, u2: int, v0: int, v1: int)
    requires 2 <= g <= 9 && 5 <= v0 && v1 <= 9 && 0 <= u2 && g * v0 <= u0 * 10 + u1
    ensures (g - 2) * (10 * v0 + v1 + 1) <= 100 * u0 + 10 * u1 + u2
  {
    ScaleLe(g - 2, 10 * v0 + v1 + 1, 10 * (v0 + 1));
    TenfoldProduct(g - 2, v0 + 1);
    assert (g - 2) * (v0 + 1) == g * v0 + g - 2 * v0 - 2;
  }

  lemma TenfoldProduct(g: int, x: int)
    ensures g * (10 * x) == 10 * (g * x)
  {
  }

  lemma LeadFits(q: nat, u0: int, u1: int, u2: int, v0: int, v1: int)
    requires 0 <= u2 <= 9 && 0 <= v1 && q * (10 * v0 + v1) <= 100 * u0 + 10 * u1 + u2
    ensures q * v0 <= u0 * 10 + u1
  {
    ScaleLe(q, 10 * v0, 10 * v0 + v1);
    TenfoldProduct(q, v0);
  }

  /** A multiple whose leading digits fit, fits. */
  lemma SmallMultipleFits(u: int, d: int, v: int, p: int, a: int, b: int, g: nat)
    requires v > 0 && u >= 0 && 0 <= d <= 9 && p >= 1
    requires a * p <= 10 * u + d && b * p <= 10 * v < (b + 1) * p && g * (b + 1) <= a
    ensures g <= u / v
  {
    ScaledBounds(g, b, p, 10 * v);
    MulLe(g * (b + 1), a, p);
    MultipleFits(u, d, v, g);
  }

  /** TooBig compares three-digit numbers. */
  lemma TestMeaning(u0: int, u1: int, u2: int, v0: int, v1: int, g: int)
    ensures TooBig(u0, u1, u2, v0, v1, g) <==> g * (10 * v0 + v1) > 100 * u0 + 10 * u1 + u2
  {
    MulDist(g, 10 * v0, v1);
    assert g * (10 * v0) == 10 * (v0 * g) && g * v1 == v1 * g;
  }

  /** A guess the test rejects is above the true digit. */
  lemma RejectedIsAbove(u: int, d: int, v: int, p: int, u0: int, u1: int, u2: int, v0: int, v1: int, g: int)
    requires Leading(u, d, v, p, u0, u1, u2, v0, v1) && 0 <= g && TooBig(u0, u1, u2, v0, v1, g)
    ensures g > u / v
  {
    var a, b := 100 * u0 + 10 * u1 + u2, 10 * v0 + v1;
    TestMeaning(u0, u1, u2, v0, v1, g);
    ScaledBounds(g, b, p, 10 * v);
    MulLe(a + 1, g * b, p);
    MultipleFits(u, d, v, g);
  }

  /** A guess the test accepts is at most one above the true digit. */
  lemma AcceptedIsClose(u: int, d: int, v: int, p: int, u0: int, u1: int, u2: int, v0: int, v1: int, g: int)
    requires Leading(u, d, v, p, u0, u1, u2, v0, v1) && 0 <= g <= 9 && !TooBig(u0, u1, u2, v0, v1, g)
    ensures g - 1 <= u / v
  {
    var a, b := 100 * u0 + 10 * u1 + u2, 10 * v0 + v1;
    TestMeaning(u0, u1, u2, v0, v1, g);
    TrueDigitBound(u, v, u / v);
    if g >= 1 {
      assert (g - 1) * (b + 1) == g * b + g - b - 1;
      SmallMultipleFits(u, d, v, p, a, b, g - 1);
    }
  }

  /** After the two tests the trial digit is the true digit or one more. */
  lemma GuessIsClose(u: int, d: int, v: int, p: int, u0: int, u1: int, u2: int, v0: int, v1: int)
    requires Leading(u, d, v, p, u0, u1, u2, v0, v1)
    ensures v > 0 && v0 > 0
    ensures u / v <= Guess(u0, u1, u2, v0, v1) <= u / v + 1
    ensures 0 <= Guess(u0, u1, u2, v0, v1) <= 9
  {
    hide TooBig, FirstGuess, Leading;
    LeadingFacts(u, d, v, p, u0, u1, u2, v0, v1);
    var g := FirstGuess(u0, u1, v0);
    FirstGuessRange(u, d, v, p, u0, u1, u2, v0, v1);
    if TooBig(u0, u1, u2, v0, v1, g) {
      RejectedIsAbove(u, d, v, p, u0, u1, u2, v0, v1, g);
      if TooBig(u0, u1, u2, v0, v1, g - 1) {
        RejectedIsAbove(u, d, v, p, u0, u1, u2, v0, v1, g - 1);
      } else {
        AcceptedIsClose(u, d, v, p, u0, u1, u2, v0, v1, g - 1);
      }
    } else {
      AcceptedIsClose(u, d, v, p, u0, u1, u2, v0, v1, g);
    }
  }

  lemma LeadingFacts(u: int, d: int, v: int, p: int, u0: int, u1: int, u2: int, v0: int, v1: int)
    requires Leading(u, d, v, p, u0, u1, u2, v0, v1)
    ensures v > 0 && v0 > 0 && 0 <= u / v <= 9
  {
    TrueDigitBound(u, v, u / v);
  }
}
