/** Decimal digit strings, most significant digit first, and the integers they denote. */
module Digits {
  import opened Arith

  predicate IsDigits(s: seq<int>) {
    forall i :: 0 <= i < |s| ==> 0 <= s[i] <= 9
  }

  /** The integer a digit string denotes. */
  function Val(s: seq<int>): int
  {
    if s == [] then 0 else 10 * Val(s[..|s| - 1]) + s[|s| - 1]
  }

  function Zeros(n: nat): (s: seq<int>)
    ensures |s| == n
    ensures forall i :: 0 <= i < n ==> s[i] == 0
  {
    seq(n, _ => 0)
  }

  lemma ValSingle(d: int)
    ensures Val([d]) == d
  {
    assert [d][..0] == [];
  }

  lemma ValSnoc(s: seq<int>, d: int)
    ensures Val(s + [d]) == 10 * Val(s) + d
  {
    assert (s + [d])[..|s|] == s;
  }

  lemma {:induction false} ValConcat(s: seq<int>, t: seq<int>)
    ensures Val(s + t) == Val(s) * P(|t|) + Val(t)
  {
    if t == [] {
      assert s + t == s;
    } else {
      var t' := t[..|t| - 1];
      assert t == t' + [t[|t| - 1]];
      assert s + t == (s + t') + [t[|t| - 1]];
      ValSnoc(s + t', t[|t| - 1]);
      ValConcat(s, t');
      MulAssoc(Val(s), P(|t'|), 10);
    }
  }

  /** Peeling the leading digit. */
  lemma ValCons(d: int, t: seq<int>)
    ensures Val([d] + t) == d * P(|t|) + Val(t)
  {
    ValConcat([d], t);
    ValSingle(d);
  }

  /** One slice of a longer string cut at i. */
  lemma ValSplit(s: seq<int>, i: nat)
    requires i <= |s|
    ensures Val(s) == Val(s[..i]) * P(|s| - i) + Val(s[i..])
  {
    assert s == s[..i] + s[i..];
    ValConcat(s[..i], s[i..]);
  }

  lemma {:induction false} ValBound(s: seq<int>)
    requires IsDigits(s)
    ensures 0 <= Val(s) < P(|s|)
  {
    if s != [] {
      ValBound(s[..|s| - 1]);
    }
  }

  lemma {:induction false} ValZeros(s: seq<int>)
    requires forall i :: 0 <= i < |s| ==> s[i] == 0
    ensures Val(s) == 0
  {
    if s != [] {
      ValZeros(s[..|s| - 1]);
    }
  }

  lemma {:induction false} ValZeroIff(s: seq<int>)
    requires IsDigits(s)
    ensures Val(s) == 0 <==> forall i :: 0 <= i < |s| ==> s[i] == 0
  {
    if s != [] {
      var t := s[..|s| - 1];
      ValZeroIff(t);
      ValBound(t);
      if Val(s) == 0 {
        assert forall i :: 0 <= i < |t| ==> t[i] == s[i];
      } else if forall i :: 0 <= i < |s| ==> s[i] == 0 {
        ValZeros(s);
      }
    }
  }

  /** A nonzero leading digit fixes the size of the number from below. */
  lemma ValLeading(s: seq<int>)
    requires IsDigits(s) && s != []
    ensures s[0] * P(|s| - 1) <= Val(s) < (s[0] + 1) * P(|s| - 1)
  {
    assert s == [s[0]] + s[1..];
    ValCons(s[0], s[1..]);
    ValBound(s[1..]);
    MulDist(P(|s| - 1), s[0], 1);
  }

  /** Digit strings of one length are determined by their value. */
  lemma {:induction false} ValInjective(s: seq<int>, t: seq<int>)
    requires IsDigits(s) && IsDigits(t) && |s| == |t| && Val(s) == Val(t)
    ensures s == t
  {
    if s != [] {
      var n := |s| - 1;
      assert s == s[..n] + [s[n]] && t == t[..n] + [t[n]];
      ValInjective(s[..n], t[..n]);
    }
  }

  /** Keeping the first i digits divides by the weight of the rest. */
  lemma ValPrefix(s: seq<int>, i: nat)
    requires IsDigits(s) && i <= |s|
    ensures Val(s[..i]) == Val(s) / P(|s| - i)
  {
    ValSplit(s, i);
    ValBound(s[i..]);
    DivUnique(Val(s), P(|s| - i), Val(s[..i]));
  }

  lemma ValAppendZeros(s: seq<int>, n: nat)
    ensures Val(s + Zeros(n)) == Val(s) * P(n)
  {
    ValConcat(s, Zeros(n));
    ValZeros(Zeros(n));
  }
}
