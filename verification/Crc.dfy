/** crc32: the table-driven checksum is the bit-at-a-time one. */
module Crc {
  import opened CrcTable

  /** X^32 + X^26 + ... + 1 with the highest-order term in the lowest bit and X^32 implied. */
  const POLY: bv32 := 0xedb88320

  function Xor(x: bv32, y: bv32): bv32 { x ^ y }

  /** One shift of the feedback register. */
  function Step(c: bv32): bv32 {
    if c & 1 == 1 then (c >> 1) ^ POLY else c >> 1
  }

  function Step8(c: bv32): bv32 {
    Step(Step(Step(Step(Step(Step(Step(Step(c))))))))
  }

  lemma Row0IsBitwise(k: bv32)
    requires k < 16
    ensures Row0(k) == Step8(0 | k)
  {
  }

  lemma Row1IsBitwise(k: bv32)
    requires k < 16
    ensures Row1(k) == Step8(16 | k)
  {
  }

  lemma Row2IsBitwise(k: bv32)
    requires k < 16
    ensures Row2(k) == Step8(32 | k)
  {
  }

  lemma Row3IsBitwise(k: bv32)
    requires k < 16
    ensures Row3(k) == Step8(48 | k)
  {
  }

  lemma Row4IsBitwise(k: bv32)
    requires k < 16
    ensures Row4(k) == Step8(64 | k)
  {
  }

  lemma Row5IsBitwise(k: bv32)
    requires k < 16
    ensures Row5(k) == Step8(80 | k)
  {
  }

  lemma Row6IsBitwise(k: bv32)
    requires k < 16
    ensures Row6(k) == Step8(96 | k)
  {
  }

  lemma Row7IsBitwise(k: bv32)
    requires k < 16
    ensures Row7(k) == Step8(112 | k)
  {
  }

  lemma Row8IsBitwise(k: bv32)
    requires k < 16
    ensures Row8(k) == Step8(128 | k)
  {
  }

  lemma Row9IsBitwise(k: bv32)
    requires k < 16
    ensures Row9(k) == Step8(144 | k)
  {
  }

  lemma RowAIsBitwise(k: bv32)
    requires k < 16
    ensures RowA(k) == Step8(160 | k)
  {
  }

  lemma RowBIsBitwise(k: bv32)
    requires k < 16
    ensures RowB(k) == Step8(176 | k)
  {
  }

  lemma RowCIsBitwise(k: bv32)
    requires k < 16
    ensures RowC(k) == Step8(192 | k)
  {
  }

  lemma RowDIsBitwise(k: bv32)
    requires k < 16
    ensures RowD(k) == Step8(208 | k)
  {
  }

  lemma RowEIsBitwise(k: bv32)
    requires k < 16
    ensures RowE(k) == Step8(224 | k)
  {
  }

  lemma RowFIsBitwise(k: bv32)
    requires k < 16
    ensures RowF(k) == Step8(240 | k)
  {
  }

  /** Every entry of the table is eight register shifts of its index. */
  lemma TableIsBitwise(i: bv32)
    requires i < 256
    ensures Entry(i) == Step8(i)
  {
    hide Step8, Row0, Row1, Row2, Row3, Row4, Row5, Row6, Row7, Row8, Row9, RowA, RowB, RowC, RowD, RowE, RowF;
    var k, r := i & 0xf, i >> 4;
    SplitIndex(i);
    if r == 0 {
      Row0IsBitwise(k);
    } else if r == 1 {
      Row1IsBitwise(k);
    } else if r == 2 {
      Row2IsBitwise(k);
    } else if r == 3 {
      Row3IsBitwise(k);
    } else if r == 4 {
      Row4IsBitwise(k);
    } else if r == 5 {
      Row5IsBitwise(k);
    } else if r == 6 {
      Row6IsBitwise(k);
    } else if r == 7 {
      Row7IsBitwise(k);
    } else if r == 8 {
      Row8IsBitwise(k);
    } else if r == 9 {
      Row9IsBitwise(k);
    } else if r == 10 {
      RowAIsBitwise(k);
    } else if r == 11 {
      RowBIsBitwise(k);
    } else if r == 12 {
      RowCIsBitwise(k);
    } else if r == 13 {
      RowDIsBitwise(k);
    } else if r == 14 {
      RowEIsBitwise(k);
    } else {
      RowFIsBitwise(k);
    }
  }

  lemma SplitIndex(i: bv32)
    requires i < 256
    ensures i & 0xf < 16 && i >> 4 < 16 && i == ((i >> 4) << 4) | (i & 0xf)
  {
  }

  function Odd(x: bv32): bool { x & 1 == 1 }

  function Half(x: bv32): bv32 { x >> 1 }

  lemma XorHalf(x: bv32, y: bv32)
    ensures Half(Xor(x, y)) == Xor(Half(x), Half(y))
  {
  }

  lemma XorOdd(x: bv32, y: bv32)
    ensures Odd(Xor(x, y)) == (Odd(x) != Odd(y))
  {
  }

  lemma XorRegroup(a: bv32, b: bv32, p: bv32)
    ensures Xor(Xor(a, b), p) == Xor(Xor(a, p), b) == Xor(a, Xor(b, p))
  {
  }

  lemma XorCancels(a: bv32, b: bv32, p: bv32)
    ensures Xor(Xor(a, p), Xor(b, p)) == Xor(a, b)
  {
    hide Xor;
    XorRegroup(a, Xor(b, p), p);
    XorRegroup(b, p, p);
    XorSelf(b, p);
  }

  lemma XorSelf(b: bv32, p: bv32)
    ensures Xor(b, Xor(p, p)) == b
  {
  }

  lemma StepFolds(x: bv32)
    ensures Step(x) == if Odd(x) then Xor(Half(x), POLY) else Half(x)
  {
  }

  /** The register is linear. */
  lemma StepLinear(x: bv32, y: bv32)
    ensures Step(Xor(x, y)) == Xor(Step(x), Step(y))
  {
    hide Step, Xor, Odd, Half;
    StepFolds(x);
    StepFolds(y);
    StepFolds(Xor(x, y));
    XorHalf(x, y);
    XorOdd(x, y);
    XorRegroup(Half(x), Half(y), POLY);
    XorCancels(Half(x), Half(y), POLY);
  }

  lemma Step4Linear(x: bv32, y: bv32)
    ensures Step(Step(Step(Step(Xor(x, y))))) == Xor(Step(Step(Step(Step(x)))), Step(Step(Step(Step(y)))))
  {
    hide Step, Xor;
    StepLinear(x, y);
    StepLinear(Step(x), Step(y));
    StepLinear(Step(Step(x)), Step(Step(y)));
    StepLinear(Step(Step(Step(x))), Step(Step(Step(y))));
  }

  lemma Step8Linear(x: bv32, y: bv32)
    ensures Step8(Xor(x, y)) == Xor(Step8(x), Step8(y))
  {
    hide Step, Xor;
    Step4Linear(x, y);
    Step4Linear(Step(Step(Step(Step(x)))), Step(Step(Step(Step(y)))));
  }

  /** High bits just move down. */
  lemma Step8High(h: bv32)
    requires h & 0xff == 0
    ensures Step8(h) == Shift8(h)
  {
  }

  function HighBits(v: bv32): bv32 { v & 0xffff_ff00 }

  function LowByte(v: bv32): bv32 { v & 0xff }

  function Shift8(v: bv32): bv32 { v >> 8 }

  lemma LowHigh(v: bv32)
    ensures v == Xor(HighBits(v), LowByte(v)) && HighBits(v) & 0xff == 0
    ensures Shift8(HighBits(v)) == Shift8(v) && LowByte(v) < 256
  {
  }

  /** Eight shifts at once, by table. */
  lemma TableStep(v: bv32)
    ensures LowByte(v) < 256 && Step8(v) == Xor(Entry(LowByte(v)), Shift8(v))
  {
    hide Step8, Entry, Xor, HighBits, LowByte, Shift8;
    LowHigh(v);
    Step8Linear(HighBits(v), LowByte(v));
    Step8High(HighBits(v));
    TableIsBitwise(LowByte(v));
    XorSymmetric(Step8(HighBits(v)), Step8(LowByte(v)));
  }

  lemma XorSymmetric(x: bv32, y: bv32)
    ensures Xor(x, y) == Xor(y, x)
  {
  }

  // ---------------------------------------------------------------- bit by bit

  function One(bit: bool): bv32 { if bit then 1 else 0 }

  /** One message bit enters the register. */
  function FeedBit(reg: bv32, bit: bool): bv32 {
    Step(Xor(reg, One(bit)))
  }

  function Feed(reg: bv32, bits: seq<bool>): bv32
    decreases |bits|
  {
    if bits == [] then reg else Feed(FeedBit(reg, bits[0]), bits[1..])
  }

  /** The bits of a byte in the order they are transmitted, lowest first. */
  function BitsOf(b: bv8): seq<bool> {
    [ b & 0x01 != 0, b & 0x02 != 0, b & 0x04 != 0, b & 0x08 != 0,
      b & 0x10 != 0, b & 0x20 != 0, b & 0x40 != 0, b & 0x80 != 0
    ]
  }

  function MessageBits(s: seq<bv8>): seq<bool> {
    if s == [] then [] else BitsOf(s[0]) + MessageBits(s[1..])
  }

  lemma {:induction false} FeedConcat(reg: bv32, a: seq<bool>, b: seq<bool>)
    ensures Feed(reg, a + b) == Feed(Feed(reg, a), b)
    decreases |a|
  {
    if a == [] {
      assert a + b == b;
    } else {
      assert (a + b)[1..] == a[1..] + b;
      FeedConcat(FeedBit(reg, a[0]), a[1..], b);
    }
  }

  function Double(q: bv32): bv32 { q << 1 }

  function Push(bit: bool, q: bv32): bv32 { One(bit) | (q << 1) }

  /** Bits as a number, first bit lowest. */
  function Pack(bits: seq<bool>): bv32
    requires |bits| <= 32
    decreases |bits|
  {
    if bits == [] then 0 else Push(bits[0], Pack(bits[1..]))
  }

  function StepN(c: bv32, n: nat): bv32
    decreases n
  {
    if n == 0 then c else StepN(Step(c), n - 1)
  }

  /** p has no bit outside m. */
  predicate Within(p: bv32, m: bv32) { p & m == p }

  function MaskUp(m: bv32): bv32 { (m << 1) | 1 }

  /** n low ones. */
  function Mask(n: nat): bv32
    decreases n
  {
    if n == 0 then 0 else MaskUp(Mask(n - 1))
  }

  lemma WithinPush(p: bv32, bit: bool, m: bv32)
    requires Within(p, m)
    ensures Within(Push(bit, p), MaskUp(m))
  {
    PushIs(bit, p);
    hide Push;
    if bit {
      hide *;
      WithinUp(p, m);
    } else {
      WithinEven(p, m);
    }
  }

  lemma PushIs(bit: bool, p: bv32)
    ensures Push(bit, p) == if bit then MaskUp(p) else p << 1
  {
    if bit {
      assert One(true) == 1;
      PushOne(p);
    } else {
      assert One(false) == 0;
    }
  }

  lemma PushOne(p: bv32)
    ensures 1 | (p << 1) == (p << 1) | 1
  {
  }

  lemma WithinEven(p: bv32, m: bv32)
    requires p & m == p
    ensures (p << 1) & ((m << 1) | 1) == p << 1
  {
  }

  lemma WithinUp(m: bv32, k: bv32)
    requires Within(m, k)
    ensures Within(MaskUp(m), MaskUp(k))
  {
  }

  lemma WithinZero(k: bv32)
    ensures Within(0, k)
  {
  }

  lemma WithinTrans(p: bv32, m: bv32, n: bv32)
    requires Within(p, m) && Within(m, n)
    ensures Within(p, n)
  {
    assert (p & m) & n == p & (m & n);
  }

  lemma {:induction false} PackWithin(bits: seq<bool>)
    requires |bits| <= 32
    ensures Within(Pack(bits), Mask(|bits|))
    decreases |bits|
  {
    hide Push, Within, MaskUp;
    if bits == [] {
      WithinZero(Mask(0));
    } else {
      PackWithin(bits[1..]);
      WithinPush(Pack(bits[1..]), bits[0], Mask(|bits| - 1));
    }
  }

  lemma {:induction false} MaskMono(m: nat, n: nat)
    requires m <= n
    ensures Within(Mask(m), Mask(n))
    decreases n
  {
    hide Within, MaskUp;
    if m > 0 {
      MaskMono(m - 1, n - 1);
      WithinUp(Mask(m - 1), Mask(n - 1));
    } else {
      WithinZero(Mask(n));
    }
  }

  lemma MaskPlus4(n: nat, m: bv32)
    requires Mask(n) == m
    ensures Mask(n + 4) == MaskUp(MaskUp(MaskUp(MaskUp(m))))
  {
    hide MaskUp;
    assert Mask(n + 1) == MaskUp(m);
    assert Mask(n + 2) == MaskUp(Mask(n + 1));
    assert Mask(n + 3) == MaskUp(Mask(n + 2));
  }

  lemma Mask31()
    ensures Mask(31) == 0x7fff_ffff
  {
    assert Mask(0) == 0 && Mask(1) == 1 && Mask(2) == 3;
    assert Mask(3) == 7;
    MaskPlus4(3, 7);
    MaskPlus4(7, 0x7f);
    MaskPlus4(11, 0x7ff);
    MaskPlus4(15, 0x7fff);
    MaskPlus4(19, 0x7_ffff);
    MaskPlus4(23, 0x7f_ffff);
    MaskPlus4(27, 0x7ff_ffff);
  }

  /** With at most 31 bits the top bit of the packed number is clear. */
  lemma PackTopClear(bits: seq<bool>)
    requires |bits| <= 31
    ensures Within(Pack(bits), 0x7fff_ffff)
  {
    hide Within, Pack, Mask;
    PackWithin(bits);
    MaskMono(|bits|, 31);
    Mask31();
    WithinTrans(Pack(bits), Mask(|bits|), Mask(31));
  }

  lemma StepDouble(q: bv32)
    requires Within(q, 0x7fff_ffff)
    ensures Step(Double(q)) == q
  {
  }

  lemma PushXor(v: bv32, bit: bool, q: bv32)
    ensures Xor(v, Push(bit, q)) == Xor(Xor(v, One(bit)), Double(q))
  {
    if bit {
      PushOneXor(v, q);
    } else {
      XorZero(v);
      assert 0 | (q << 1) == q << 1;
    }
  }

  lemma XorZero(v: bv32)
    ensures v ^ 0 == v
  {
  }

  lemma PushOneXor(v: bv32, q: bv32)
    ensures v ^ (1 | (q << 1)) == (v ^ 1) ^ (q << 1)
  {
  }

  /** Up to 32 bits fed one at a time are as many shifts of the register with the bits laid over it. */
  lemma {:induction false} FeedIsSteps(v: bv32, bits: seq<bool>)
    requires |bits| <= 32
    ensures Feed(v, bits) == StepN(Xor(v, Pack(bits)), |bits|)
    decreases |bits|
  {
    hide Step, Xor, One, Push, Double, Within;
    if bits == [] {
      XorNothing(v);
    } else {
      var bit, q := bits[0], Pack(bits[1..]);
      PackTopClear(bits[1..]);
      PushXor(v, bit, q);
      StepLinear(Xor(v, One(bit)), Double(q));
      StepDouble(q);
      FeedIsSteps(FeedBit(v, bit), bits[1..]);
    }
  }

  lemma XorNothing(v: bv32)
    ensures Xor(v, 0) == v
  {
  }

  /** Undo one shift: the top bit tells whether the polynomial was fed back. */
  function UnStep(c: bv32): bv32 {
    if c & 0x8000_0000 != 0 then ((c ^ POLY) << 1) | 1 else c << 1
  }

  lemma UnStepStep(c: bv32)
    ensures UnStep(Step(c)) == c && Step(UnStep(c)) == c
  {
    UnStepOfStep(c);
    StepOfUnStep(c);
  }

  lemma UnStepOfStep(c: bv32)
    ensures UnStep(Step(c)) == c
  {
    if c & 1 == 1 {
      OddDown(c);
    } else {
      EvenDown(c);
    }
  }

  lemma OddDown(c: bv32)
    requires c & 1 == 1
    ensures ((c >> 1) ^ POLY) & 0x8000_0000 != 0 && ((((c >> 1) ^ POLY) ^ POLY) << 1) | 1 == c
  {
  }

  lemma EvenDown(c: bv32)
    requires c & 1 != 1
    ensures (c >> 1) & 0x8000_0000 == 0 && (c >> 1) << 1 == c
  {
  }

  lemma StepOfUnStep(c: bv32)
    ensures Step(UnStep(c)) == c
  {
    if c & 0x8000_0000 != 0 {
      OddUp(c);
    } else {
      EvenUp(c);
    }
  }

  lemma OddUp(c: bv32)
    requires c & 0x8000_0000 != 0
    ensures (((c ^ POLY) << 1) | 1) & 1 == 1 && ((((c ^ POLY) << 1) | 1) >> 1) ^ POLY == c
  {
  }

  lemma EvenUp(c: bv32)
    requires c & 0x8000_0000 == 0
    ensures (c << 1) & 1 != 1 && (c << 1) >> 1 == c
  {
  }

  lemma {:induction false} StepNInjective(c: bv32, d: bv32, n: nat)
    requires StepN(c, n) == StepN(d, n)
    ensures c == d
    decreases n
  {
    hide Step, UnStep;
    if n > 0 {
      StepNInjective(Step(c), Step(d), n - 1);
      UnStepStep(c);
      UnStepStep(d);
    }
  }

  lemma XorInjective(v: bv32, x: bv32, y: bv32)
    ensures Xor(v, x) == Xor(v, y) ==> x == y
    ensures Xor(x, v) == Xor(y, v) ==> x == y
  {
    assert v ^ (v ^ x) == x && v ^ (v ^ y) == y;
    assert (x ^ v) ^ v == x && (y ^ v) ^ v == y;
  }

  lemma PushInjective(a: bool, p: bv32, b: bool, q: bv32)
    requires Within(p, 0x7fff_ffff) && Within(q, 0x7fff_ffff) && Push(a, p) == Push(b, q)
    ensures a == b && p == q
  {
    PushParts(a, p);
    PushParts(b, q);
  }

  lemma PushParts(a: bool, p: bv32)
    requires Within(p, 0x7fff_ffff)
    ensures Push(a, p) & 1 == One(a) && Push(a, p) >> 1 == p
  {
  }

  lemma {:induction false} PackInjective(x: seq<bool>, y: seq<bool>)
    requires |x| == |y| <= 32 && Pack(x) == Pack(y)
    ensures x == y
    decreases |x|
  {
    hide Push, Within;
    if x != [] {
      PackTopClear(x[1..]);
      PackTopClear(y[1..]);
      PushInjective(x[0], Pack(x[1..]), y[0], Pack(y[1..]));
      PackInjective(x[1..], y[1..]);
      assert x == [x[0]] + x[1..] && y == [y[0]] + y[1..];
    }
  }

  /** For fixed data the register before is determined by the register after. */
  lemma {:induction false} FeedInjective(v: bv32, w: bv32, bits: seq<bool>)
    requires Feed(v, bits) == Feed(w, bits)
    ensures v == w
    decreases |bits|
  {
    hide Step, UnStep, Xor;
    if bits != [] {
      FeedInjective(FeedBit(v, bits[0]), FeedBit(w, bits[0]), bits[1..]);
      FeedBitInjective(v, w, bits[0]);
    }
  }

  lemma FeedBitInjective(v: bv32, w: bv32, bit: bool)
    requires FeedBit(v, bit) == FeedBit(w, bit)
    ensures v == w
  {
    hide Step, UnStep, Xor, One;
    UnStepStep(Xor(v, One(bit)));
    UnStepStep(Xor(w, One(bit)));
    XorInjective(One(bit), v, w);
  }

  /** And every register after has one before. */
  lemma {:induction false} FeedSurjective(c: bv32, bits: seq<bool>) returns (v: bv32)
    ensures Feed(v, bits) == c
    decreases |bits|
  {
    hide Step, UnStep, Xor, One;
    if bits == [] {
      v := c;
    } else {
      var u := FeedSurjective(c, bits[1..]);
      v := Xor(UnStep(u), One(bits[0]));
      UnStepStep(u);
      XorTwice(UnStep(u), One(bits[0]));
    }
  }

  lemma XorTwice(x: bv32, b: bv32)
    ensures Xor(Xor(x, b), b) == x
  {
  }

  /** Messages that differ only inside a window of at most 32 bits never have the same checksum. */
  lemma BurstDetected(v: bv32, before: seq<bool>, x: seq<bool>, y: seq<bool>, after: seq<bool>)
    requires |x| == |y| <= 32 && x != y
    ensures Feed(v, before + x + after) != Feed(v, before + y + after)
  {
    if Feed(v, before + x + after) == Feed(v, before + y + after) {
      hide Step, Feed, Pack, Xor, StepN;
      FeedConcat(v, before + x, after);
      FeedConcat(v, before + y, after);
      FeedConcat(v, before, x);
      FeedConcat(v, before, y);
      var u := Feed(v, before);
      FeedInjective(Feed(u, x), Feed(u, y), after);
      FeedIsSteps(u, x);
      FeedIsSteps(u, y);
      StepNInjective(Xor(u, Pack(x)), Xor(u, Pack(y)), |x|);
      XorInjective(u, Pack(x), Pack(y));
      PackInjective(x, y);
    }
  }

  // ---------------------------------------------------------------- byte by byte

  /** The loop body of crc32. */
  function Update(val: bv32, b: bv8): bv32 {
    LowHigh(val ^ (b as bv32));
    Entry(LowByte(val ^ (b as bv32))) ^ (val >> 8)
  }

  lemma PackByte(b: bv8)
    ensures Pack(BitsOf(b)) == b as bv32
  {
    var s := BitsOf(b);
    PackTwo(s);
    PackTwo(s[2..]);
    PackTwo(s[4..]);
    PackTwo(s[6..]);
    assert s[2..][2..] == s[4..] && s[4..][2..] == s[6..] && s[6..][2..] == [];
    assert Pack([]) == 0;
    ByteOfBits(b);
  }

  lemma PackTwo(s: seq<bool>)
    requires 2 <= |s| <= 32
    ensures Pack(s) == Push(s[0], Push(s[1], Pack(s[2..])))
  {
    hide Push;
    assert s[1..][1..] == s[2..];
  }

  lemma ByteOfBits(b: bv8)
    ensures b as bv32 == Push(b & 0x01 != 0, Push(b & 0x02 != 0, Push(b & 0x04 != 0, Push(b & 0x08 != 0,
      Push(b & 0x10 != 0, Push(b & 0x20 != 0, Push(b & 0x40 != 0, Push(b & 0x80 != 0, 0))))))))
  {
    var w := b as bv32;
    LowBits(b);
    LastPush(w);
    LastPush(w >> 1);
    LastPush(w >> 2);
    LastPush(w >> 3);
    LastPush(w >> 4);
    LastPush(w >> 5);
    LastPush(w >> 6);
    LastPush(w >> 7);
    hide Push;
  }

  /** A word is its lowest bit pushed into the others. */
  lemma LastPush(w: bv32)
    ensures w == Push(w & 1 != 0, w >> 1)
  {
    if w & 1 != 0 {
      assert One(true) == 1;
      OddRejoin(w);
    } else {
      assert One(false) == 0;
      EvenRejoin(w);
    }
  }

  lemma OddRejoin(w: bv32)
    requires w & 1 != 0
    ensures 1 | ((w >> 1) << 1) == w
  {
  }

  lemma EvenRejoin(w: bv32)
    requires w & 1 == 0
    ensures 0 | ((w >> 1) << 1) == w
  {
  }

  lemma LowBits(b: bv8)
    ensures var w := b as bv32;
      && (w & 1 != 0 <==> b & 0x01 != 0) && ((w >> 1) & 1 != 0 <==> b & 0x02 != 0)
      && ((w >> 2) & 1 != 0 <==> b & 0x04 != 0) && ((w >> 3) & 1 != 0 <==> b & 0x08 != 0)
      && ((w >> 4) & 1 != 0 <==> b & 0x10 != 0) && ((w >> 5) & 1 != 0 <==> b & 0x20 != 0)
      && ((w >> 6) & 1 != 0 <==> b & 0x40 != 0) && ((w >> 7) & 1 != 0 <==> b & 0x80 != 0)
    ensures var w := b as bv32; (w >> 1) >> 1 == w >> 2 && (w >> 2) >> 1 == w >> 3 && (w >> 3) >> 1 == w >> 4
    ensures var w := b as bv32; (w >> 4) >> 1 == w >> 5 && (w >> 5) >> 1 == w >> 6 && (w >> 6) >> 1 == w >> 7
    ensures ((b as bv32) >> 7) >> 1 == 0
  {
  }

  lemma ByteShift(v: bv32, b: bv8)
    ensures Shift8(Xor(v, b as bv32)) == Shift8(v)
  {
  }

  lemma StepNEight(c: bv32)
    ensures StepN(c, 8) == Step8(c)
  {
  }

  /** One table step is eight bit steps. */
  lemma UpdateIsBits(val: bv32, b: bv8)
    ensures Update(val, b) == Feed(val, BitsOf(b))
  {
    hide Step8, StepN, Feed, Entry, Pack, BitsOf, LowByte, Step, One;
    EightBits(b);
    FeedIsSteps(val, BitsOf(b));
    PackByte(b);
    StepNEight(Xor(val, b as bv32));
    TableStep(Xor(val, b as bv32));
    ByteShift(val, b);
  }

  lemma EightBits(b: bv8)
    ensures |BitsOf(b)| == 8
  {
  }

  /** crc32: the table-driven loop computes the bit-at-a-time checksum. */
  method Crc32(start: bv32, s: seq<bv8>) returns (val: bv32)
    ensures val == Feed(start, MessageBits(s))
  {
    hide Step, Feed, BitsOf, Update;
    val := start;
    var i := 0;
    AllBits(s);
    NoBits(start, s);
    while i < |s|
      invariant 0 <= i <= |s|
      invariant val == Feed(start, MessageBits(s[..i]))
    {
      UpdateIsBits(val, s[i]);
      MoreBits(s, i);
      FeedConcat(start, MessageBits(s[..i]), BitsOf(s[i]));
      val := Update(val, s[i]);
      i := i + 1;
    }
  }

  lemma AllBits(s: seq<bv8>)
    ensures s[..|s|] == s
  {
  }

  lemma NoBits(v: bv32, s: seq<bv8>)
    ensures Feed(v, MessageBits(s[..0])) == v
  {
  }

  lemma MoreBits(s: seq<bv8>, i: nat)
    requires i < |s|
    ensures MessageBits(s[..i + 1]) == MessageBits(s[..i]) + BitsOf(s[i])
  {
    assert s[..i + 1] == s[..i] + [s[i]];
    BitsConcat(s[..i], [s[i]]);
    assert [s[i]][1..] == [];
  }

  lemma {:induction false} BitsConcat(a: seq<bv8>, b: seq<bv8>)
    ensures MessageBits(a + b) == MessageBits(a) + MessageBits(b)
    decreases |a|
  {
    hide BitsOf;
    if a == [] {
      assert a + b == b;
    } else {
      assert (a + b)[1..] == a[1..] + b;
      BitsConcat(a[1..], b);
    }
  }

  /** Checking a message in two parts. */
  lemma Composes(v: bv32, a: seq<bv8>, b: seq<bv8>)
    ensures Feed(v, MessageBits(a + b)) == Feed(Feed(v, MessageBits(a)), MessageBits(b))
  {
    BitsConcat(a, b);
    FeedConcat(v, MessageBits(a), MessageBits(b));
  }

  lemma ByteFromBits(b: bv8, c: bv8)
    ensures BitsOf(b) == BitsOf(c) ==> b == c
  {
    if BitsOf(b) == BitsOf(c) {
      PackByte(b);
      PackByte(c);
      SameByte(b, c);
    }
  }

  lemma SameByte(b: bv8, c: bv8)
    requires b as bv32 == c as bv32
    ensures b == c
  {
  }

  lemma {:induction false} BitsLength(s: seq<bv8>)
    ensures |MessageBits(s)| == 8 * |s|
  {
    if s != [] {
      BitsLength(s[1..]);
    }
  }

  lemma {:induction false} BitsInjective(x: seq<bv8>, y: seq<bv8>)
    requires |x| == |y| && MessageBits(x) == MessageBits(y)
    ensures x == y
    decreases |x|
  {
    hide BitsOf;
    if x != [] {
      EightBits(x[0]);
      EightBits(y[0]);
      assert MessageBits(x)[..8] == BitsOf(x[0]) && MessageBits(y)[..8] == BitsOf(y[0]);
      assert MessageBits(x)[8..] == MessageBits(x[1..]) && MessageBits(y)[8..] == MessageBits(y[1..]);
      ByteFromBits(x[0], y[0]);
      BitsInjective(x[1..], y[1..]);
      assert x == [x[0]] + x[1..] && y == [y[0]] + y[1..];
    }
  }

  /** Messages of one length that differ only inside one window of four bytes never collide. */
  lemma WindowDetected(v: bv32, before: seq<bv8>, x: seq<bv8>, y: seq<bv8>, after: seq<bv8>)
    requires |x| == |y| <= 4 && x != y
    ensures Feed(v, MessageBits(before + x + after)) != Feed(v, MessageBits(before + y + after))
  {
    hide Step, Feed, MessageBits;
    BitsLength(x);
    BitsLength(y);
    if MessageBits(x) == MessageBits(y) {
      BitsInjective(x, y);
    }
    BitsConcat(before + x, after);
    BitsConcat(before, x);
    BitsConcat(before + y, after);
    BitsConcat(before, y);
    BurstDetected(v, MessageBits(before), MessageBits(x), MessageBits(y), MessageBits(after));
  }
}
