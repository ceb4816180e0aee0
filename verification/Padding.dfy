/** What a streaming digest means: a block function folded over the padded message. */
module Padding {
  import opened Arith
  import opened Pack

  const CBLOCK := 64
  const LBLOCK := 16
  const WORD := 0x1_0000_0000

  /** The block function folded over the whole blocks of s; a last incomplete block is ignored. */
  function Fold<S>(big: bool, block: (S, seq<bv32>) -> S, start: S, s: seq<bv8>): S
    decreases |s|
  {
    if |s| < CBLOCK then start
    else Fold(big, block, block(start, Words(big, s[..CBLOCK])), s[CBLOCK..])
  }

  lemma {:induction false} FoldAppend<S>(big: bool, block: (S, seq<bv32>) -> S, start: S, s: seq<bv8>, t: seq<bv8>)
    requires |s| % CBLOCK == 0
    ensures Fold(big, block, start, s + t) == Fold(big, block, Fold(big, block, start, s), t)
    decreases |s|
  {
    if s == [] {
      assert s + t == t;
    } else {
      assert (s + t)[..CBLOCK] == s[..CBLOCK] && (s + t)[CBLOCK..] == s[CBLOCK..] + t;
      FoldAppend(big, block, block(start, Words(big, s[..CBLOCK])), s[CBLOCK..], t);
    }
  }

  /** The bytes not yet in a whole block. */
  function Tail(s: seq<bv8>): (t: seq<bv8>)
    ensures |t| == |s| % CBLOCK
  {
    s[|s| - |s| % CBLOCK..]
  }

  /** Only the bytes not yet in a whole block matter for what more bytes do. */
  lemma FoldMore<S>(big: bool, block: (S, seq<bv32>) -> S, start: S, s: seq<bv8>, x: seq<bv8>)
    ensures Fold(big, block, start, s + x) == Fold(big, block, Fold(big, block, start, s), Tail(s) + x)
  {
    var body, tail := s[..|s| - |s| % CBLOCK], Tail(s);
    assert s == body + tail && s + x == body + (tail + x);
    FoldAppend(big, block, start, body, tail);
    FoldAppend(big, block, start, body, tail + x);
    FoldShort(big, block, Fold(big, block, start, body), tail);
  }

  lemma FoldShort<S>(big: bool, block: (S, seq<bv32>) -> S, start: S, s: seq<bv8>)
    requires |s| < CBLOCK
    ensures Fold(big, block, start, s) == start
  {
  }

  lemma TailMore(s: seq<bv8>, x: seq<bv8>)
    ensures Tail(s + x) == Tail(Tail(s) + x)
  {
    assert |Tail(s) + x| % CBLOCK == |s + x| % CBLOCK;
  }

  lemma FoldOne<S>(big: bool, block: (S, seq<bv32>) -> S, start: S, s: seq<bv8>)
    requires |s| == CBLOCK
    ensures Fold(big, block, start, s) == block(start, Words(big, s))
  {
    assert s[..CBLOCK] == s && s[CBLOCK..] == [];
  }

  function Zeros(n: nat): (s: seq<bv8>)
    ensures |s| == n && forall i :: 0 <= i < n ==> s[i] == 0
  {
    seq(n, i => 0)
  }

  lemma ZerosAdd(m: nat, n: nat)
    ensures Zeros(m) + Zeros(n) == Zeros(m + n)
  {
  }

  /** How many zero bytes follow the 0x80: the fewest that leave room for exactly the length. */
  function ZeroCount(n: nat): (k: nat)
    ensures k < CBLOCK && (n + 1 + k + 8) % CBLOCK == 0
  {
    (55 - n % CBLOCK) % CBLOCK
  }

  /** The bit length modulo 2^64 as two words: low word first in little-endian order, high word first in big-endian. */
  function LengthBytes(big: bool, n: nat): (s: seq<bv8>)
    ensures |s| == 8
  {
    var bits := 8 * n % (WORD * WORD);
    var lo, hi := WordBytes(big, LowWord(bits)), WordBytes(big, HighWord(bits));
    if big then hi + lo else lo + hi
  }

  function LowWord(bits: int): bv32
    requires 0 <= bits < WORD * WORD
  {
    (bits % WORD) as bv32
  }

  function HighWord(bits: int): bv32
    requires 0 <= bits < WORD * WORD
  {
    assert bits / WORD < WORD;
    (bits / WORD) as bv32
  }

  /** The length as bytes: two words of 32 bits, each in the byte order, and the words in that order too. */
  lemma LengthIs(big: bool, n: nat, lo: bv32, hi: bv32)
    requires IsSplit(8 * n % 0x1_0000_0000_0000_0000, lo, hi)
    ensures var s := LengthBytes(big, n);
      if big then FourDigits(s[0], s[1], s[2], s[3]) == hi && FourDigits(s[4], s[5], s[6], s[7]) == lo
      else FourDigits(s[3], s[2], s[1], s[0]) == lo && FourDigits(s[7], s[6], s[5], s[4]) == hi
  {
    SplitWords(8 * n % 0x1_0000_0000_0000_0000, lo, hi);
    hide FourDigits, WordBytes, LowWord, HighWord, IsSplit;
    WordBytesAre(big, lo);
    WordBytesAre(big, hi);
  }

  /** lo and hi are the words of the number. */
  predicate IsSplit(bits: int, lo: bv32, hi: bv32)
    requires 0 <= bits < 0x1_0000_0000_0000_0000
  {
    lo == (bits % 0x1_0000_0000) as bv32 && hi == (bits / 0x1_0000_0000) as bv32
  }

  lemma SplitWords(bits: int, lo: bv32, hi: bv32)
    requires 0 <= bits < 0x1_0000_0000_0000_0000 && IsSplit(bits, lo, hi)
    ensures lo == LowWord(bits) && hi == HighWord(bits)
  {
  }

  lemma WordBytesAre(big: bool, w: bv32)
    ensures var s := WordBytes(big, w);
      w == if big then FourDigits(s[0], s[1], s[2], s[3]) else FourDigits(s[3], s[2], s[1], s[0])
  {
    hide WordBytes, Word, FourDigits;
    var s := WordBytes(big, w);
    WordOfBytes(big, w);
    WordIs(big, s[0], s[1], s[2], s[3]);
  }

  /** The padded message. */
  function Pad(big: bool, s: seq<bv8>): (p: seq<bv8>)
    ensures |p| % CBLOCK == 0
  {
    s + [0x80] + Zeros(ZeroCount(|s|)) + LengthBytes(big, |s|)
  }

  /** Where everything is in it: the message, the mark, the fewest zeros, and the length in the last eight bytes. */
  lemma PadIs(big: bool, s: seq<bv8>)
    ensures var p := Pad(big, s); var z := |p| - |s| - 9;
      && 0 <= z < 64 && |p| % 64 == 0 && p[..|s|] == s && p[|s|] == 0x80
      && (forall i :: |s| < i <= |s| + z ==> p[i] == 0) && p[|p| - 8..] == LengthBytes(big, |s|)
  {
    hide LengthBytes, ZeroCount;
    var z := ZeroCount(|s|);
    assert Pad(big, s) == s + ([0x80] + (Zeros(z) + LengthBytes(big, |s|)));
  }

  /** The words hold the bytes of t; the unused bytes of a last incomplete word are zero, later words are arbitrary. */
  ghost predicate Holds(big: bool, words: seq<bv32>, t: seq<bv8>) {
    && |words| == LBLOCK && |t| <= CBLOCK
    && forall k :: 0 <= k && 4 * k < |t| ==> words[k] == WordAt(big, t, k)
  }

  /** Storing a word that continues what is held. */
  lemma HoldsMore(big: bool, words: seq<bv32>, t: seq<bv8>, k: int, x: seq<bv8>, l: bv32)
    requires Holds(big, words, t) && 0 <= k < LBLOCK && 4 * k <= |t| && |t| + |x| <= 4 * k + 4
    requires l == WordAt(big, t[4 * k..] + x, 0)
    ensures Holds(big, words[k := l], t + x)
  {
    hide WordAt;
    forall j | 0 <= j && 4 * j < |t + x| ensures words[k := l][j] == WordAt(big, t + x, j) {
      if j < k {
        WordAtAgrees(big, t, t + x, j, j);
      } else {
        WordAtAgrees(big, t[4 * k..] + x, t + x, 0, k);
      }
    }
  }

  lemma HoldsAll(big: bool, words: seq<bv32>, t: seq<bv8>)
    requires Holds(big, words, t) && |t| == CBLOCK
    ensures words == Words(big, t)
  {
    hide WordAt;
  }

  /** The two halves of the running bit count, 2^64 being the modulus. */
  ghost predicate Counted(nl: int, nh: int, n: nat) {
    0 <= nl < WORD && 0 <= nh < WORD && nh * WORD + nl == 8 * n % (WORD * WORD)
  }

  lemma CountedWords(nl: int, nh: int, n: nat)
    requires Counted(nl, nh, n)
    ensures nl == 8 * n % (WORD * WORD) % WORD && nh == 8 * n % (WORD * WORD) / WORD
  {
  }

  /** The low half: whether the 32-bit sum came out smaller tells whether the low parts overflowed. */
  lemma LowSum(nl: int, len: nat) returns (c: int)
    requires 0 <= nl < WORD
    ensures var l := (nl + 8 * len) % WORD;
      c == (if l < nl then 1 else 0) && nl + 8 * len == l + (len / 0x2000_0000 + c) * WORD
  {
    var hi, r := len / 0x2000_0000, 8 * (len % 0x2000_0000);
    assert 8 * len == hi * 0x1_0000_0000 + r && 0 <= r < 0x1_0000_0000;
    c := if nl + r >= 0x1_0000_0000 then 1 else 0;
    ModIs(nl + 8 * len, nl + r - c * 0x1_0000_0000, hi + c, 0x1_0000_0000);
  }

  /** Adding len bytes: the carry test and the two part sums of the update code. */
  lemma CountMore(nl: int, nh: int, n: nat, len: nat)
    requires Counted(nl, nh, n)
    ensures var l := (nl + 8 * len) % WORD; var h := if l < nl then (nh + 1) % WORD else nh;
      Counted(l, (h + len / 0x2000_0000) % WORD, n + len)
  {
    var l, hi := (nl + 8 * len) % WORD, len / 0x2000_0000;
    var c := LowSum(nl, len);
    var h := if l < nl then (nh + 1) % WORD else nh;
    SmallMod(nh, WORD);
    ModAdd(nh + c, hi, WORD);
    HighSum(nl, nh, 8 * n, 8 * len, l, hi + c);
  }

  lemma SmallMod(x: int, m: int)
    requires 0 <= x < m
    ensures x % m == x
  {
  }

  lemma HighSum(nl: int, nh: int, n: int, x: int, l: int, c: int)
    requires nh * WORD + nl == n % (WORD * WORD) && nl + x == l + c * WORD && 0 <= l < WORD
    ensures (nh + c) % WORD * WORD + l == (n + x) % (WORD * WORD)
  {
    var s := nh + c;
    var q := s / 0x1_0000_0000;
    ModAdd(n, x, WORD * WORD);
    assert s == q * 0x1_0000_0000 + s % 0x1_0000_0000;
    assert n % (WORD * WORD) + x == s * 0x1_0000_0000 + l;
    ModIs(s * 0x1_0000_0000 + l, s % 0x1_0000_0000 * 0x1_0000_0000 + l, q, 0x1_0000_0000_0000_0000);
  }

  lemma ModIs(a: int, r: int, q: int, m: int)
    requires m > 0 && 0 <= r < m && a == r + q * m
    ensures a % m == r
  {
    DivUnique(a, m, q);
  }

  lemma ModAdd(a: int, b: int, m: int)
    requires m > 0
    ensures (a % m + b) % m == (a + b) % m
  {
    var q, q' := a / m, (a % m + b) / m;
    assert a == q * m + a % m;
    assert a % m + b == q' * m + (a % m + b) % m;
    assert (q + q') * m == q * m + q' * m;
    ModIs(a + b, (a % m + b) % m, q + q', m);
  }
}
