/** Packing bytes into 32-bit words in either byte order, as the collector macros of md32_common.h do. */
module Pack {

  /** Byte number j of a word, moved to its place. */
  function Put(big: bool, j: int, b: bv8): bv32 {
    var w := b as bv32;
    if big then
      if j == 0 then w << 24 else if j == 1 then w << 16 else if j == 2 then w << 8 else w
    else
      if j == 0 then w else if j == 1 then w << 8 else if j == 2 then w << 16 else w << 24
  }

  function Or(x: bv32, y: bv32): bv32 { x | y }

  /** The word of four bytes. */
  function Word(big: bool, a: bv8, b: bv8, c: bv8, d: bv8): bv32 {
    Or(Or(Or(Put(big, 0, a), Put(big, 1, b)), Put(big, 2, c)), Put(big, 3, d))
  }

  /** Four digits in base 256, the highest first, as a number. */
  function FourDigits(a: bv8, b: bv8, c: bv8, d: bv8): bv32 {
    ((a as bv32 * 256 + b as bv32) * 256 + c as bv32) * 256 + d as bv32
  }

  /** What number the word of four bytes is: the first byte is the highest in big-endian order, else the lowest. */
  lemma WordIs(big: bool, a: bv8, b: bv8, c: bv8, d: bv8)
    ensures Word(big, a, b, c, d) == if big then FourDigits(a, b, c, d) else FourDigits(d, c, b, a)
  {
    if big {
      BigWordIs(a, b, c, d);
    } else {
      LittleIsBig(a, b, c, d);
      BigWordIs(d, c, b, a);
    }
  }

  lemma BigWordIs(a: bv8, b: bv8, c: bv8, d: bv8)
    ensures Word(true, a, b, c, d) == FourDigits(a, b, c, d)
  {
  }

  /** The bytes of "abc" and the padding mark in both orders. */
  lemma FirstWordOfAbc()
    ensures Word(false, 0x61, 0x62, 0x63, 0x80) == 0x8063_6261 && Word(true, 0x61, 0x62, 0x63, 0x80) == 0x6162_6380
  {
  }

  /** Byte j of a word, counted from the low end. */
  function ByteOf(w: bv32, j: int): bv8 {
    if j == 0 then (w & 0xff) as bv8
    else if j == 1 then ((w >> 8) & 0xff) as bv8
    else if j == 2 then ((w >> 16) & 0xff) as bv8
    else ((w >> 24) & 0xff) as bv8
  }

  /** The bytes of a word, in message order. */
  function WordBytes(big: bool, w: bv32): (s: seq<bv8>)
    ensures |s| == 4
  {
    if big then [ByteOf(w, 3), ByteOf(w, 2), ByteOf(w, 1), ByteOf(w, 0)]
    else [ByteOf(w, 0), ByteOf(w, 1), ByteOf(w, 2), ByteOf(w, 3)]
  }

  lemma WordOfBytes(big: bool, w: bv32)
    ensures var s := WordBytes(big, w); Word(big, s[0], s[1], s[2], s[3]) == w
  {
    hide ByteOf, Word;
    BytesRejoin(w);
    LittleIsBig(ByteOf(w, 0), ByteOf(w, 1), ByteOf(w, 2), ByteOf(w, 3));
  }

  lemma LittleIsBig(b0: bv8, b1: bv8, b2: bv8, b3: bv8)
    ensures Word(false, b0, b1, b2, b3) == Word(true, b3, b2, b1, b0)
  {
    assert Put(false, 0, b0) == Put(true, 3, b0) && Put(false, 1, b1) == Put(true, 2, b1);
    assert Put(false, 2, b2) == Put(true, 1, b2) && Put(false, 3, b3) == Put(true, 0, b3);
    hide Put, Or;
    OrReverse(Put(false, 0, b0), Put(false, 1, b1), Put(false, 2, b2), Put(false, 3, b3));
  }

  lemma BytesRejoin(w: bv32)
    ensures Word(true, ByteOf(w, 3), ByteOf(w, 2), ByteOf(w, 1), ByteOf(w, 0)) == w
  {
  }

  lemma OrReverse(a: bv32, b: bv32, c: bv32, d: bv32)
    ensures Or(Or(Or(a, b), c), d) == Or(Or(Or(d, c), b), a)
  {
    hide Or;
    OrSwaps(a, b, Or(d, c));
    OrInto(Or(a, b), c, d);
  }

  lemma OrSwaps(a: bv32, b: bv32, c: bv32)
    ensures Or(Or(c, b), a) == Or(Or(a, b), c)
    ensures Or(b, a) == Or(a, b)
  {
  }

  lemma OrInto(x: bv32, c: bv32, d: bv32)
    ensures Or(x, Or(d, c)) == Or(Or(x, c), d)
  {
  }

  lemma PutZero(big: bool, j: int)
    ensures Put(big, j, 0) == 0
  {
  }

  lemma OrZero(x: bv32)
    ensures Or(x, 0) == x == Or(0, x)
  {
  }

  /** A word whose last bytes are missing: zero bytes add nothing. */
  lemma ShortWord(big: bool, a: bv8, b: bv8, c: bv8)
    ensures Word(big, 0, 0, 0, 0) == 0
    ensures Word(big, a, 0, 0, 0) == Put(big, 0, a)
    ensures Word(big, a, b, 0, 0) == Or(Put(big, 0, a), Put(big, 1, b))
    ensures Word(big, a, b, c, 0) == Or(Or(Put(big, 0, a), Put(big, 1, b)), Put(big, 2, c))
  {
    hide Put, Or;
    PutZero(big, 0);
    PutZero(big, 1);
    PutZero(big, 2);
    PutZero(big, 3);
    OrZero(0);
    OrZero(Put(big, 0, a));
    OrZero(Or(Put(big, 0, a), Put(big, 1, b)));
    OrZero(Or(Or(Put(big, 0, a), Put(big, 1, b)), Put(big, 2, c)));
  }

  /** Byte i of the message, zero past its end. */
  function At(s: seq<bv8>, i: int): bv8 {
    if 0 <= i < |s| then s[i] else 0
  }

  /** Word k of the message, the missing bytes zero. */
  function WordAt(big: bool, s: seq<bv8>, k: int): bv32 {
    Word(big, At(s, 4 * k), At(s, 4 * k + 1), At(s, 4 * k + 2), At(s, 4 * k + 3))
  }

  /** The sixteen words of a block. */
  function Words(big: bool, s: seq<bv8>): (w: seq<bv32>)
    ensures |w| == 16
  {
    seq(16, k => WordAt(big, s, k))
  }

  /** Each word of a block as a number. */
  lemma WordsAre(big: bool, s: seq<bv8>, k: int)
    requires |s| == 64 && 0 <= k < 16
    ensures var a, b, c, d := s[4 * k], s[4 * k + 1], s[4 * k + 2], s[4 * k + 3];
      Words(big, s)[k] == if big then FourDigits(a, b, c, d) else FourDigits(d, c, b, a)
  {
    hide Word, FourDigits;
    WordIs(big, s[4 * k], s[4 * k + 1], s[4 * k + 2], s[4 * k + 3]);
  }

  lemma WordAtAgrees(big: bool, s: seq<bv8>, t: seq<bv8>, j: int, k: int)
    requires At(s, 4 * j) == At(t, 4 * k) && At(s, 4 * j + 1) == At(t, 4 * k + 1)
    requires At(s, 4 * j + 2) == At(t, 4 * k + 2) && At(s, 4 * j + 3) == At(t, 4 * k + 3)
    ensures WordAt(big, s, j) == WordAt(big, t, k)
  {
  }

  /** HOST_c2l: the next four bytes. */
  method HostC2l(big: bool, data: seq<bv8>, c: int) returns (l: bv32, c': int)
    requires 0 <= c && c + 4 <= |data|
    ensures c' == c + 4 && l == WordAt(big, data[c..c'], 0)
    ensures l == if big then FourDigits(data[c], data[c + 1], data[c + 2], data[c + 3])
                 else FourDigits(data[c + 3], data[c + 2], data[c + 1], data[c])
  {
    hide Put, Or, FourDigits;
    WordIs(big, data[c], data[c + 1], data[c + 2], data[c + 3]);
    l := Put(big, 0, data[c]);
    l := Or(l, Put(big, 1, data[c + 1]));
    l := Or(l, Put(big, 2, data[c + 2]));
    l := Or(l, Put(big, 3, data[c + 3]));
    c' := c + 4;
  }

  /** HOST_p_c2l: complete a word that already holds the n bytes of q, starting at case n and falling through. */
  method HostPC2l(big: bool, data: seq<bv8>, c: int, l0: bv32, n: int, ghost q: seq<bv8>) returns (l: bv32, c': int)
    requires |q| == n < 4 && (n == 0 || l0 == WordAt(big, q, 0))
    requires 0 <= c && c + (4 - n) <= |data|
    ensures c' == c + (4 - n) && l == WordAt(big, q + data[c..c'], 0)
  {
    hide Put, Or;
    ShortWord(big, At(q, 0), At(q, 1), At(q, 2));
    l, c' := l0, c;
    if n <= 0 {
      l := Put(big, 0, data[c']);
      c' := c' + 1;
    }
    if n <= 1 {
      l := Or(l, Put(big, 1, data[c']));
      c' := c' + 1;
    }
    if n <= 2 {
      l := Or(l, Put(big, 2, data[c']));
      c' := c' + 1;
    }
    l := Or(l, Put(big, 3, data[c']));
    c' := c' + 1;
  }

  /** HOST_p_c2l_p: add len bytes to a word that holds the sc bytes of q and stays incomplete. */
  method HostPC2lP(big: bool, data: seq<bv8>, c: int, l0: bv32, sc: int, len0: int, ghost q: seq<bv8>)
    returns (l: bv32)
    requires |q| == sc && 0 < len0 && sc + len0 < 4 && (sc == 0 || l0 == WordAt(big, q, 0))
    requires 0 <= c && c + len0 <= |data|
    ensures l == WordAt(big, q + data[c..c + len0], 0)
  {
    hide Put, Or;
    ShortWord(big, At(q, 0), At(q, 1), At(q, 2));
    ghost var t := q + data[c..c + len0];
    ShortWord(big, At(t, 0), At(t, 1), At(t, 2));
    l := l0;
    var c', len := c, len0;
    if sc <= 0 {
      l := Put(big, 0, data[c']);
      c' := c' + 1;
      len := len - 1;
      if len == 0 {
        return;
      }
    }
    if sc <= 1 {
      l := Or(l, Put(big, 1, data[c']));
      c' := c' + 1;
      len := len - 1;
      if len == 0 {
        return;
      }
    }
    l := Or(l, Put(big, 2, data[c']));
  }

  /** HOST_c2l_p: a fresh word of the next n bytes, read backwards from the last. */
  method HostC2lP(big: bool, data: seq<bv8>, c: int, n: int) returns (l: bv32)
    requires 0 <= n < 4 && 0 <= c && c + n <= |data|
    ensures l == WordAt(big, data[c..c + n], 0)
  {
    hide Put, Or;
    ghost var t := data[c..c + n];
    ShortWord(big, At(t, 0), At(t, 1), At(t, 2));
    OrSwaps(Put(big, 0, At(t, 0)), Put(big, 1, At(t, 1)), Put(big, 2, At(t, 2)));
    OrZero(Put(big, 0, At(t, 0)));
    OrZero(Put(big, 1, At(t, 1)));
    l := 0;
    var c' := c + n;
    if n == 3 {
      c' := c' - 1;
      l := Put(big, 2, data[c']);
    }
    if n >= 2 {
      c' := c' - 1;
      l := Or(l, Put(big, 1, data[c']));
    }
    if n >= 1 {
      c' := c' - 1;
      l := Or(l, Put(big, 0, data[c']));
    }
  }
}
