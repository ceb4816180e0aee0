/** num2str and bc_str2num: decimal text. */
module Text {
  import opened Arith
  import opened Digits
  import opened Number
  import opened AddSub

  predicate IsDigitChar(c: char) { '0' <= c <= '9' }

  function BcdChar(d: int): char
    requires 0 <= d <= 9
  {
    ('0' as int + d) as char
  }

  function ChVal(c: char): int
    requires IsDigitChar(c)
  {
    c as int - '0' as int
  }

  predicate IsNumeral(s: string) {
    forall i :: 0 <= i < |s| ==> IsDigitChar(s[i])
  }

  function Chars(d: seq<int>): (s: string)
    requires IsDigits(d)
    ensures |s| == |d| && IsNumeral(s)
  {
    seq(|d|, i requires 0 <= i < |d| => BcdChar(d[i]))
  }

  function Values(s: string): (d: seq<int>)
    requires IsNumeral(s)
    ensures |d| == |s| && IsDigits(d)
  {
    seq(|s|, i requires 0 <= i < |s| => ChVal(s[i]))
  }

  lemma ValuesOfChars(d: seq<int>)
    requires IsDigits(d)
    ensures Values(Chars(d)) == d
  {
  }

  /** The text of a number. */
  function TextOf(n: BcNum): string
    requires n.WellFormed()
  {
    (if n.sign == Plus then "" else "-") + Chars(n.digits[..n.len])
    + if n.scale > 0 then "." + Chars(n.digits[n.len..]) else ""
  }

  /** The loops of num2str: one character a digit. */
  method WriteDigits(d: seq<int>) returns (s: string)
    requires IsDigits(d)
    ensures s == Chars(d)
  {
    s := "";
    var i := 0;
    while i < |d|
      invariant 0 <= i <= |d| && s == Chars(d)[..i]
    {
      s := s + [BcdChar(d[i])];
      i := i + 1;
    }
  }

  /** s is the number n: sign, one character for each digit with code 48 plus the digit, a point before the fraction. */
  ghost predicate Shows(s: string, n: BcNum)
    requires n.WellFormed()
  {
    var sg := if n.sign == Minus then 1 else 0;
    && |s| == sg + n.len + (if n.scale > 0 then 1 + n.scale else 0)
    && (n.sign == Minus ==> s[0] == '-')
    && (forall i :: 0 <= i < n.len ==> s[sg + i] as int == 48 + n.digits[i])
    && (n.scale > 0 ==> s[sg + n.len] == '.')
    && forall i :: n.len <= i < n.len + n.scale ==> s[sg + 1 + i] as int == 48 + n.digits[i]
  }

  lemma TextShows(n: BcNum)
    requires n.WellFormed()
    ensures Shows(TextOf(n), n)
  {
    var sg, a, b := if n.sign == Plus then "" else "-", Chars(n.digits[..n.len]), Chars(n.digits[n.len..]);
    CharCodes(n.digits[..n.len]);
    CharCodes(n.digits[n.len..]);
    assert TextOf(n) == Decimal(sg, a, n.scale > 0, b);
    DecimalLaidOut(sg, a, n.scale > 0, b);
    hide Chars, TextOf, Decimal;
    ShownBy(TextOf(n), sg, a, b, n);
  }

  lemma ShownBy(s: string, sg: string, a: string, b: string, n: BcNum)
    requires n.WellFormed() && LaidOut(s, sg, a, n.scale > 0, b)
    requires sg == (if n.sign == Plus then "" else "-") && |a| == n.len && |b| == n.scale
    requires forall i :: 0 <= i < n.len ==> a[i] as int == 48 + n.digits[..n.len][i]
    requires forall i :: 0 <= i < n.scale ==> b[i] as int == 48 + n.digits[n.len..][i]
    ensures Shows(s, n)
  {
    forall i | 0 <= i < n.len ensures s[|sg| + i] as int == 48 + n.digits[i] {
      assert s[|sg| + i] == a[i];
      assert n.digits[..n.len][i] == n.digits[i];
    }
    forall i | n.len <= i < n.len + n.scale ensures s[|sg| + 1 + i] as int == 48 + n.digits[i] {
      assert s[|sg| + 1 + i] == b[i - n.len];
      assert n.digits[n.len..][i - n.len] == n.digits[i];
    }
  }

  lemma CharCodes(d: seq<int>)
    requires IsDigits(d)
    ensures forall i :: 0 <= i < |d| ==> Chars(d)[i] as int == 48 + d[i]
  {
  }

  /** num2str. */
  method Num2Str(n: BcNum) returns (s: string)
    requires n.WellFormed()
    ensures s == TextOf(n) && Shows(s, n)
  {
    hide Shows;
    TextShows(n);
    var whole := WriteDigits(n.digits[..n.len]);
    s := (if n.sign == Plus then "" else "-") + whole;
    if n.scale > 0 {
      var frac := WriteDigits(n.digits[n.len..]);
      s := s + "." + frac;
    }
  }

  /** The first index from i on that is not a zero character. */
  function SkipZeros(s: string, i: nat): (j: nat)
    requires i <= |s|
    ensures i <= j <= |s| && (forall k :: i <= k < j ==> s[k] == '0') && (j < |s| ==> s[j] != '0')
    decreases |s| - i
  {
    if i < |s| && s[i] == '0' then SkipZeros(s, i + 1) else i
  }

  /** The first index from i on that is not a digit. */
  function SkipDigits(s: string, i: nat): (j: nat)
    requires i <= |s|
    ensures i <= j <= |s| && IsNumeral(s[i..j]) && (j < |s| ==> !IsDigitChar(s[j]))
    decreases |s| - i
  {
    if i < |s| && IsDigitChar(s[i]) then
      assert forall j :: i < j <= |s| && IsNumeral(s[i + 1..j]) ==> s[i..j] == [s[i]] + s[i + 1..j];
      SkipDigits(s, i + 1)
    else i
  }

  /** The scan positions: after the sign, the zeros, the integer digits, the point and the fraction. */
  datatype Scan = Scan(sign: nat, zeros: nat, ints: nat, point: nat, frac: nat)

  function ScanOf(s: string): (r: Scan)
    ensures r.sign <= r.zeros <= r.ints <= r.point <= r.frac <= |s|
    ensures IsNumeral(s[r.zeros..r.ints]) && IsNumeral(s[r.point..r.frac])
  {
    var a := if s != "" && (s[0] == '+' || s[0] == '-') then 1 else 0;
    var b := SkipZeros(s, a);
    var c := SkipDigits(s, b);
    var d := if c < |s| && s[c] == '.' then c + 1 else c;
    Scan(a, b, c, d, SkipDigits(s, d))
  }

  /** What bc_str2num makes of a text. */
  function Parse(s: string, scale: nat): BcNum
  {
    var r := ScanOf(s);
    if r.frac < |s| || (r.ints == r.zeros && r.frac == r.point) then Small(0)
    else
      var places := Min(r.frac - r.point, scale);
      var ints := if r.ints == r.zeros then [0] else Values(s[r.zeros..r.ints]);
      BcNum(if s[0] == '-' then Minus else Plus, |ints|, places, ints + Values(s[r.point..r.frac])[..places])
  }

  /** The checking pass of bc_str2num: where it ends and how many digits it counts. */
  method ScanPass(s: string) returns (ptr: nat, digits: nat, strscale: nat)
    ensures ptr == ScanOf(s).frac
    ensures digits == ScanOf(s).ints - ScanOf(s).zeros && strscale == ScanOf(s).frac - ScanOf(s).point
  {
    hide IsNumeral;
    ptr, digits, strscale := 0, 0, 0;
    if ptr < |s| && (s[ptr] == '+' || s[ptr] == '-') {
      ptr := ptr + 1;
    }
    ptr := PassZeros(s, ptr);
    ptr, digits := PassDigits(s, ptr);
    if ptr < |s| && s[ptr] == '.' {
      ptr := ptr + 1;
    }
    ptr, strscale := PassDigits(s, ptr);
  }

  method PassZeros(s: string, start: nat) returns (ptr: nat)
    requires start <= |s|
    ensures ptr == SkipZeros(s, start)
  {
    ptr := start;
    while ptr < |s| && s[ptr] == '0'
      invariant ptr <= |s| && SkipZeros(s, ptr) == SkipZeros(s, start)
    {
      ptr := ptr + 1;
    }
  }

  method PassDigits(s: string, start: nat) returns (ptr: nat, count: nat)
    requires start <= |s|
    ensures ptr == SkipDigits(s, start) && count == ptr - start
  {
    hide IsNumeral;
    ptr, count := start, 0;
    while ptr < |s| && IsDigitChar(s[ptr])
      invariant ptr <= |s| && SkipDigits(s, ptr) == SkipDigits(s, start) && count == ptr - start
    {
      ptr, count := ptr + 1, count + 1;
    }
  }

  /** The loops that fill in digits. */
  method ReadDigits(s: string, start: nat, count: nat) returns (d: seq<int>)
    requires start + count <= |s| && IsNumeral(s[start..start + count])
    ensures d == Values(s[start..start + count])
  {
    ghost var piece := s[start..start + count];
    var i := 0;
    d := [];
    while i < count
      invariant 0 <= i <= count && d == Values(piece)[..i]
    {
      assert s[start + i] == piece[i];
      d := d + [ChVal(s[start + i])];
      i := i + 1;
    }
  }

  /** A fraction is only there after a point. */
  lemma PointBeforeFraction(s: string)
    ensures ScanOf(s).frac > ScanOf(s).point ==> ScanOf(s).point == ScanOf(s).ints + 1
  {
  }

  lemma CutValues(t: string, k: nat)
    requires IsNumeral(t) && k <= |t|
    ensures IsNumeral(t[..k]) && Values(t[..k]) == Values(t)[..k]
  {
  }

  lemma SliceFront<T>(s: seq<T>, i: nat, j: nat, k: nat)
    requires i <= j <= |s| && i + k <= j
    ensures s[i..j][..k] == s[i..i + k]
  {
  }

  /** bc_str2num: a text that is not sign, digits, point, digits gives zero. */
  method Str2Num(s: string, scale: nat) returns (n: BcNum)
    ensures n == Parse(s, scale)
  {
    hide IsNumeral, Values, SkipZeros, SkipDigits;
    var ptr, digits, strscale := ScanPass(s);
    ghost var r := ScanOf(s);
    if ptr < |s| || digits + strscale == 0 {
      return Small(0);
    }
    strscale := Min(strscale, scale);
    var sign := if s[0] == '-' then Minus else Plus;
    ptr := if s[0] == '-' || s[0] == '+' then 1 else 0;
    ptr := PassZeros(s, ptr);
    var ints := [0];
    if digits > 0 {
      assert s[ptr..ptr + digits] == s[r.zeros..r.ints];
      ints := ReadDigits(s, ptr, digits);
      ptr := ptr + digits;
    }
    PointBeforeFraction(s);
    CutValues(s[r.point..r.frac], strscale);
    var frac := [];
    if strscale > 0 {
      ptr := ptr + 1;
      SliceFront(s, r.point, r.frac, strscale);
      frac := ReadDigits(s, ptr, strscale);
    }
    n := BcNum(sign, |ints|, strscale, ints + frac);
  }

  /** A sign character or nothing. */
  predicate IsSignText(sg: string) {
    sg == "" || sg == "+" || sg == "-"
  }

  /** sign, digits, and if there is one a point with digits after it. */
  function Decimal(sg: string, ints: string, point: bool, frac: string): string {
    sg + ints + if point then "." + frac else ""
  }

  lemma {:induction false} SkipZerosAt(s: string, i: nat, j: nat)
    requires i <= j <= |s| && (forall k :: i <= k < j ==> s[k] == '0') && (j < |s| ==> s[j] != '0')
    ensures SkipZeros(s, i) == j
    decreases j - i
  {
    if i < j {
      SkipZerosAt(s, i + 1, j);
    }
  }

  lemma {:induction false} SkipDigitsAt(s: string, i: nat, j: nat)
    requires i <= j <= |s| && (forall k :: i <= k < j ==> IsDigitChar(s[k])) && (j < |s| ==> !IsDigitChar(s[j]))
    ensures SkipDigits(s, i) == j
    decreases j - i
  {
    if i < j {
      SkipDigitsAt(s, i + 1, j);
    }
  }

  /** How far the leading zeros of a numeral go. */
  function LeadingZeros(t: string): (z: nat)
    ensures z <= |t| && (forall k :: 0 <= k < z ==> t[k] == '0') && (z < |t| ==> t[z] != '0')
  {
    SkipZeros(t, 0)
  }

  /** Where the pieces of a decimal text are. */
  ghost predicate LaidOut(s: string, sg: string, ints: string, point: bool, frac: string)
  {
    && |s| == |sg| + |ints| + (if point then 1 + |frac| else 0)
    && (forall k :: |sg| <= k < |sg| + |ints| ==> s[k] == ints[k - |sg|])
    && (point ==> s[|sg| + |ints|] == '.')
    && (point ==> forall k :: |sg| + |ints| + 1 <= k < |s| ==> s[k] == frac[k - (|sg| + |ints| + 1)])
    && (sg != "" ==> s[0] == sg[0])
  }

  lemma DecimalLaidOut(sg: string, ints: string, point: bool, frac: string)
    ensures LaidOut(Decimal(sg, ints, point, frac), sg, ints, point, frac)
  {
  }

  lemma ScanLaidOut(s: string, sg: string, ints: string, point: bool, frac: string)
    requires LaidOut(s, sg, ints, point, frac)
    requires IsSignText(sg) && IsNumeral(ints) && IsNumeral(frac) && (!point ==> frac == "")
    ensures ScanOf(s) ==
      Scan(|sg|, |sg| + LeadingZeros(ints), |sg| + |ints|, |sg| + |ints| + (if point then 1 else 0), |s|)
  {
    var a, z := |sg|, LeadingZeros(ints);
    SkipZerosAt(s, a, a + z);
    SkipDigitsAt(s, a + z, a + |ints|);
    SkipDigitsAt(s, a + |ints| + (if point then 1 else 0), |s|);
  }

  lemma {:induction false} ValuesOfZeros(t: string)
    requires forall k :: 0 <= k < |t| ==> t[k] == '0'
    ensures IsNumeral(t) && Val(Values(t)) == 0
  {
    ValZeros(Values(t));
  }

  /** Leading zeros do not count. */
  lemma DropZeros(t: string)
    requires IsNumeral(t)
    ensures IsNumeral(t[LeadingZeros(t)..]) && Val(Values(t[LeadingZeros(t)..])) == Val(Values(t))
  {
    var z := LeadingZeros(t);
    ValuesOfZeros(t[..z]);
    assert Values(t) == Values(t[..z]) + Values(t[z..]);
    ValConcat(Values(t[..z]), Values(t[z..]));
  }

  /**
   Every decimal text with at least one digit is read as its value, cut off after scale decimals:
   integer part exact, leading zeros ignored.
   */
  lemma ParseDecimal(sg: string, ints: string, point: bool, frac: string, scale: nat)
    requires IsDecimal(sg, ints, point, frac)
    ensures var n := Parse(Decimal(sg, ints, point, frac), scale);
      n.Trimmed() && n.len >= 1 && n.scale == Min(|frac|, scale)
    ensures var n := Parse(Decimal(sg, ints, point, frac), scale);
      n.sign == Minus <==> sg == "-" && !(frac == "" && LeadingZeros(ints) == |ints|)
    ensures var n := Parse(Decimal(sg, ints, point, frac), scale);
      n.Int() == Signed(if sg == "-" then Minus else Plus,
        Val(Values(ints)) * P(n.scale) + Val(Values(frac)[..n.scale]))
  {
    hide Parse, Values;
    var s, z := Decimal(sg, ints, point, frac), LeadingZeros(ints);
    DecimalLaidOut(sg, ints, point, frac);
    ScanLaidOut(s, sg, ints, point, frac);
    DropZeros(ints);
    ParsePieces(s, sg, ints, point, frac, scale);
  }

  /** A number built from an integer string and a fraction string. */
  lemma BuiltValue(sign: Sign, ints: seq<int>, frac: seq<int>)
    requires IsDigits(ints) && IsDigits(frac) && ints != [] && (|ints| > 1 ==> ints[0] != 0)
    ensures BcNum(sign, |ints|, |frac|, ints + frac).Trimmed()
    ensures BcNum(sign, |ints|, |frac|, ints + frac).Int() == Signed(sign, Val(ints) * P(|frac|) + Val(frac))
  {
    hide P, Val;
    ValConcat(ints, frac);
  }

  /** What Parse returns, once the scan positions are known. */
  lemma ParseBuilds(s: string, sg: string, ints: string, point: bool, frac: string, scale: nat)
    requires LaidOut(s, sg, ints, point, frac)
    requires IsSignText(sg) && IsNumeral(ints) && IsNumeral(frac) && (!point ==> frac == "")
    requires ScanOf(s) ==
      Scan(|sg|, |sg| + LeadingZeros(ints), |sg| + |ints|, |sg| + |ints| + (if point then 1 else 0), |s|)
    requires LeadingZeros(ints) < |ints| || |frac| > 0
    ensures IsNumeral(ints[LeadingZeros(ints)..])
    ensures var kept := ints[LeadingZeros(ints)..];
      var whole := if kept == "" then [0] else Values(kept);
      Parse(s, scale) == BcNum(if sg == "-" then Minus else Plus, |whole|, Min(|frac|, scale),
        whole + Values(frac)[..Min(|frac|, scale)])
  {
    hide ScanOf, Values, LeadingZeros;
    var kept := ints[LeadingZeros(ints)..];
    var r := ScanOf(s);
    assert s[r.zeros..r.ints] == kept;
    assert s[r.point..r.frac] == frac;
    FirstSign(s, sg, ints, point, frac);
  }

  lemma ParsePieces(s: string, sg: string, ints: string, point: bool, frac: string, scale: nat)
    requires LaidOut(s, sg, ints, point, frac)
    requires IsSignText(sg) && IsNumeral(ints) && IsNumeral(frac) && (!point ==> frac == "") && |ints| + |frac| > 0
    requires ScanOf(s) ==
      Scan(|sg|, |sg| + LeadingZeros(ints), |sg| + |ints|, |sg| + |ints| + (if point then 1 else 0), |s|)
    requires IsNumeral(ints[LeadingZeros(ints)..]) && Val(Values(ints[LeadingZeros(ints)..])) == Val(Values(ints))
    ensures Parse(s, scale).Trimmed() && Parse(s, scale).len >= 1 && Parse(s, scale).scale == Min(|frac|, scale)
    ensures Parse(s, scale).sign == Minus <==> sg == "-" && !(frac == "" && LeadingZeros(ints) == |ints|)
    ensures Parse(s, scale).Int() == Signed(if sg == "-" then Minus else Plus,
      Val(Values(ints)) * P(Min(|frac|, scale)) + Val(Values(frac)[..Min(|frac|, scale)]))
  {
    hide P, Val, ScanOf, LeadingZeros, LaidOut, Parse, Values;
    var z, places, sign := LeadingZeros(ints), Min(|frac|, scale), if sg == "-" then Minus else Plus;
    var kept := ints[z..];
    if z < |ints| || |frac| > 0 {
      ParseBuilds(s, sg, ints, point, frac, scale);
      var whole := if kept == "" then [0] else Values(kept);
      ValSingle(0);
      EmptyValue(Values(kept));
      FirstKept(kept);
      BuiltValue(sign, whole, Values(frac)[..places]);
    } else {
      ParseNothing(s, sg, ints, point, frac, scale);
      ValuesOfZeros(ints);
      EmptyValue(Values(frac)[..places]);
    }
  }

  /** Only zeros before the point and nothing after it: the constant zero. */
  lemma ParseNothing(s: string, sg: string, ints: string, point: bool, frac: string, scale: nat)
    requires LaidOut(s, sg, ints, point, frac) && frac == "" && LeadingZeros(ints) == |ints|
    requires ScanOf(s) ==
      Scan(|sg|, |sg| + LeadingZeros(ints), |sg| + |ints|, |sg| + |ints| + (if point then 1 else 0), |s|)
    ensures Parse(s, scale) == Small(0)
  {
    hide ScanOf, LeadingZeros;
  }

  lemma FirstKept(t: string)
    requires IsNumeral(t) && (t != "" ==> t[0] != '0')
    ensures t != "" ==> Values(t)[0] != 0
  {
  }

  lemma EmptyValue(d: seq<int>)
    ensures d == [] ==> Val(d) == 0
  {
  }

  lemma FirstSign(s: string, sg: string, ints: string, point: bool, frac: string)
    requires LaidOut(s, sg, ints, point, frac) && IsSignText(sg) && IsNumeral(ints) && |s| > 0
    ensures s[0] == '-' <==> sg == "-"
  {
    if sg == "" {
      if ints != "" {
        assert IsDigitChar(ints[0]);
      }
    }
  }

  /** s is an optional sign, digits, and optionally a point and more digits, with at least one digit. */
  ghost predicate IsDecimalText(s: string) {
    exists sg, ints, point, frac :: s == Decimal(sg, ints, point, frac) && IsDecimal(sg, ints, point, frac)
  }

  predicate IsDecimal(sg: string, ints: string, point: bool, frac: string) {
    IsSignText(sg) && IsNumeral(ints) && IsNumeral(frac) && (!point ==> frac == "") && |ints| + |frac| > 0
  }

  lemma ScannedNumeral(s: string)
    ensures IsNumeral(s[ScanOf(s).sign..ScanOf(s).ints])
  {
    var r := ScanOf(s);
    forall k | r.sign <= k < r.ints ensures IsDigitChar(s[k]) {
      if k < r.zeros {
        assert s[k] == '0';
      } else {
        assert s[k] == s[r.zeros..r.ints][k - r.zeros];
      }
    }
  }

  lemma ScannedSign(s: string)
    ensures IsSignText(s[..ScanOf(s).sign])
  {
    if ScanOf(s).sign == 1 {
      assert s[..1] == [s[0]];
    }
  }

  lemma ScannedPoint(s: string)
    ensures ScanOf(s).point > ScanOf(s).ints ==> ScanOf(s).point == ScanOf(s).ints + 1 && s[ScanOf(s).ints] == '.'
    ensures ScanOf(s).point == ScanOf(s).ints ==> ScanOf(s).frac == ScanOf(s).ints
  {
  }

  /** A numeral denotes zero exactly when it is all zeros. */
  lemma ZeroNumeral(t: string)
    requires IsNumeral(t)
    ensures Val(Values(t)) == 0 <==> LeadingZeros(t) == |t|
  {
    ValZeroIff(Values(t));
    var z := LeadingZeros(t);
    hide Val, LeadingZeros;
    if z < |t| {
      assert Values(t)[z] == ChVal(t[z]) != 0;
    }
  }

  /**
   A minus sign, digits that are all zero, a point, and after it at least one digit, those within the scale
   being zero too.
   */
  ghost predicate IsMinusZero(ints: string, frac: string, scale: nat) {
    && IsNumeral(ints) && IsNumeral(frac) && frac != ""
    && Val(Values(ints)) == 0 && Val(Values(frac)[..Min(|frac|, scale)]) == 0
  }

  lemma DecimalMinusZero(sg: string, ints: string, point: bool, frac: string, scale: nat)
    requires IsDecimal(sg, ints, point, frac)
    ensures !Parse(Decimal(sg, ints, point, frac), scale).Valid() <==> sg == "-" && IsMinusZero(ints, frac, scale)
  {
    hide Parse, Values, Decimal, LeadingZeros, Val, P, IsDigits, IsNumeral;
    ParseDecimal(sg, ints, point, frac, scale);
    ZeroNumeral(ints);
    var n := Parse(Decimal(sg, ints, point, frac), scale);
    NonnegParts(ints, frac, n.scale);
    var x, y := Val(Values(ints)), Val(Values(frac)[..n.scale]);
    ZeroSum(x, P(n.scale), y);
    SignedZero(n, if sg == "-" then Minus else Plus, x * P(n.scale) + y);
  }

  lemma NonnegParts(ints: string, frac: string, k: nat)
    requires IsNumeral(ints) && IsNumeral(frac) && k <= |frac|
    ensures Val(Values(ints)) >= 0 && Val(Values(frac)[..k]) >= 0
  {
    ValBound(Values(ints));
    ValBound(Values(frac)[..k]);
  }

  lemma SignedZero(n: BcNum, sg: Sign, m: int)
    requires n.Trimmed() && n.len >= 1 && m >= 0 && n.Int() == Signed(sg, m)
    ensures !n.Valid() <==> n.sign == Minus && m == 0
  {
    hide P, Val;
  }

  lemma ZeroSum(x: int, p: nat, y: int)
    requires x >= 0 && p >= 1 && y >= 0
    ensures x * p + y == 0 <==> x == 0 && y == 0
  {
    if x > 0 {
      MulMono(1, x, 1, p);
    }
  }

  /** Of all texts exactly these are read as a number out of normal form: a negative zero. */
  lemma ParseMinusZero(s: string, scale: nat)
    ensures !Parse(s, scale).Valid() <==>
      exists ints, frac :: s == Decimal("-", ints, true, frac) && IsMinusZero(ints, frac, scale)
  {
    hide Parse, IsMinusZero;
    if !Parse(s, scale).Valid() {
      if !IsDecimalText(s) {
        ParseRefuses(s, scale);
        assert false;
      }
      var sg, ints, point, frac :| s == Decimal(sg, ints, point, frac) && IsDecimal(sg, ints, point, frac);
      DecimalMinusZero(sg, ints, point, frac, scale);
      MinusZeroParts(ints, frac, scale);
      assert s == Decimal("-", ints, true, frac);
    }
    if ints, frac :| s == Decimal("-", ints, true, frac) && IsMinusZero(ints, frac, scale) {
      MinusZeroParts(ints, frac, scale);
      DecimalMinusZero("-", ints, true, frac, scale);
    }
  }

  lemma MinusZeroParts(ints: string, frac: string, scale: nat)
    requires IsMinusZero(ints, frac, scale)
    ensures IsNumeral(ints) && IsNumeral(frac) && frac != ""
  {
  }

  /** Such texts are "-0.5" at scale 0 and "-0.0" at any scale, but not "-0". */
  lemma MinusZeroTexts(scale: nat)
    ensures !Parse("-0.5", 0).Valid() && !Parse("-0.0", scale).Valid() && Parse("-0", scale).Valid()
  {
    hide Parse, Val, Decimal, IsMinusZero, Values;
    ZeroPieces(scale);
    DecimalMinusZero("-", "0", true, "5", 0);
    DecimalMinusZero("-", "0", true, "0", scale);
    DecimalMinusZero("-", "0", false, "", scale);
  }

  lemma ZeroPieces(scale: nat)
    ensures IsMinusZero("0", "5", 0) && IsMinusZero("0", "0", scale) && !IsMinusZero("0", "", scale)
    ensures Decimal("-", "0", true, "5") == "-0.5" && Decimal("-", "0", true, "0") == "-0.0"
    ensures Decimal("-", "0", false, "") == "-0"
  {
    var z := Values("0");
    assert z == [0] && z[..0] == [] && z[..1] == [0];
    var five := Values("5");
    assert five[..0] == [];
    ValSingle(0);
    EmptyValue([]);
    hide Val, Values;
    assert "-" + "0" == "-0" && "." + "5" == ".5" && "." + "0" == ".0";
    assert "-0" + ".5" == "-0.5" && "-0" + ".0" == "-0.0" && "-0" + "" == "-0";
  }

  /** Any other text is refused, and reads as zero. */
  lemma ParseRefuses(s: string, scale: nat)
    requires !IsDecimalText(s)
    ensures Parse(s, scale) == Small(0)
  {
    hide ScanOf, IsNumeral, IsSignText, IsDecimalText;
    var r := ScanOf(s);
    if !(r.frac < |s| || (r.ints == r.zeros && r.frac == r.point)) {
      var sg, ints, point, frac := s[..r.sign], s[r.sign..r.ints], r.point > r.ints, s[r.point..];
      ScannedSign(s);
      ScannedNumeral(s);
      ScannedPoint(s);
      assert s[r.point..r.frac] == frac;
      assert s == sg + ints + s[r.ints..];
      assert s[r.ints..] == if point then "." + frac else "";
      TextWitness(s, sg, ints, point, frac);
    }
  }

  lemma TextWitness(s: string, sg: string, ints: string, point: bool, frac: string)
    requires s == Decimal(sg, ints, point, frac) && IsDecimal(sg, ints, point, frac)
    ensures IsDecimalText(s)
  {
  }

  /**
   Writing a number out and reading it back at its own scale returns the same number, unless it is a negative
   zero without decimals.
   */
  lemma RoundTrip(n: BcNum)
    requires n.Trimmed() && n.len >= 1
    ensures Parse(TextOf(n), n.scale) == n <==> !(n.sign == Minus && n.Mag() == 0 && n.scale == 0)
  {
    hide Parse, ScanOf, P, Val;
    var sg, ints, frac := if n.sign == Plus then "" else "-", Chars(n.digits[..n.len]), Chars(n.digits[n.len..]);
    ValuesOfChars(n.digits[..n.len]);
    ValuesOfChars(n.digits[n.len..]);
    assert TextOf(n) == Decimal(sg, ints, n.scale > 0, frac);
    ParseDecimal(sg, ints, n.scale > 0, frac, n.scale);
    ZeroNumeral(ints);
    ValSplit(n.digits, n.len);
    var m := Parse(TextOf(n), n.scale);
    assert Values(frac)[..n.scale] == Values(frac);
    if n.scale == 0 {
      NoFraction(n);
    }
    if m.sign == n.sign {
      SameNumber(m, n);
    }
  }

  lemma NoFraction(n: BcNum)
    requires n.WellFormed() && n.scale == 0
    ensures n.digits[..n.len] == n.digits && Val(n.digits[n.len..]) == 0
  {
  }

  /** Characters from '0' to '9', by their codes. */
  predicate AreDigits(t: string) {
    forall i :: 0 <= i < |t| ==> 48 <= t[i] as int <= 57
  }

  /** The text of a number without sign. */
  function Unsigned(t: string, point: bool, f: string): string {
    t + if point then "." + f else ""
  }

  lemma WithSign(sg: string, t: string, point: bool, f: string)
    ensures Decimal(sg, t, point, f) == sg + Unsigned(t, point, f)
  {
  }

  /** The digits before and after the point, as far as decimals are kept, are one number; then comes the sign. */
  lemma ReadDecimal(sg: string, t: string, point: bool, f: string, scale: nat)
    requires IsSignText(sg) && AreDigits(t) && AreDigits(f) && t + f != "" && (!point ==> f == "")
    ensures var n, k := Parse(sg + Unsigned(t, point, f), scale), Min(|f|, scale);
      n.scale == k && n.Int() == Signed(if sg == "-" then Minus else Plus, DigitsValue(t + f[..k]))
  {
    hide Parse, LeadingZeros, Val, P, Decimal, Unsigned, Values, IsSignText;
    var k := Min(|f|, scale);
    Numerals(t, f, k);
    NumeralText(sg, t, point, f);
    WithSign(sg, t, point, f);
    ParseDecimal(sg, t, point, f, scale);
    ValConcat(Values(t), Values(f)[..k]);
  }

  lemma NumeralText(sg: string, t: string, point: bool, f: string)
    requires IsSignText(sg) && AreDigits(t) && AreDigits(f) && t + f != "" && (!point ==> f == "")
    ensures IsDecimal(sg, t, point, f)
  {
    assert |t + f| > 0;
  }

  lemma Numerals(t: string, f: string, k: nat)
    requires AreDigits(t) && AreDigits(f) && k <= |f|
    ensures IsNumeral(t) && IsNumeral(f) && AreDigits(t + f[..k]) && IsNumeral(t + f[..k])
    ensures Values(t + f[..k]) == Values(t) + Values(f)[..k]
  {
  }

  /** What a text of digits stands for. */
  function DigitsValue(t: string): int
    requires AreDigits(t)
  {
    assert IsNumeral(t);
    Val(Values(t))
  }

  /** It is built digit by digit from the codes. */
  lemma DigitsValueIs(t: string, c: char)
    requires AreDigits(t) && 48 <= c as int <= 57
    ensures DigitsValue("") == 0 && DigitsValue(t + [c]) == 10 * DigitsValue(t) + (c as int - 48)
  {
    EmptyValue(Values(""));
    assert Values(t + [c]) == Values(t) + [c as int - 48];
    ValSnoc(Values(t), c as int - 48);
    hide Val;
  }

  /** A text of one digit is read as its code less 48; one digit more makes ten times as much and that digit. */
  lemma ReadMore(t: string, c: char, scale: nat)
    requires AreDigits(t) && t != "" && 48 <= c as int <= 57
    ensures Parse([c], scale).Int() == c as int - 48
    ensures Parse(t + [c], scale).Int() == 10 * Parse(t, scale).Int() + (c as int - 48)
  {
    hide Parse, DigitsValue, Unsigned, LeadingZeros;
    DigitsValueIs(t, c);
    DigitsValueIs("", c);
    assert "" + [c] == [c];
    ReadPlain(t, scale);
    ReadPlain([c], scale);
    ReadPlain(t + [c], scale);
  }

  lemma ReadPlain(t: string, scale: nat)
    requires AreDigits(t) && t != ""
    ensures Parse(t, scale).Int() == DigitsValue(t)
  {
    hide Parse, DigitsValue, Unsigned, LeadingZeros;
    PlainText(t);
    ReadDecimal("", t, false, "", scale);
  }

  lemma PlainText(t: string)
    ensures "" + Unsigned(t, false, "") == t && t + ""[..0] == t && t + "" == t
  {
  }
}
