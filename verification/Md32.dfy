/** The streaming collector: HASH_UPDATE and HASH_FINAL over a context with a partly filled word buffer. */
module Md32 {
  import opened Pack
  import opened Padding

  /** What an int of 32 bits holds of x. */
  function Int32(x: int): int {
    (x + 0x8000_0000) % 0x1_0000_0000 - 0x8000_0000
  }

  /** How far the code moves over that many blocks: block counter and product are ints. */
  function Advance(blocks: nat): int {
    Int32(CBLOCK * Int32(blocks))
  }

  /** The blocks can be counted; taken straight from the input their bytes can, too. */
  predicate Countable(blocks: nat, direct: bool) {
    blocks < if direct then 0x200_0000 else 0x8000_0000
  }

  /** The counter is right exactly for countable blocks. */
  lemma CountExact(blocks: nat)
    ensures Int32(blocks) == blocks <==> Countable(blocks, false)
    ensures Advance(blocks) == CBLOCK * blocks <==> Countable(blocks, true)
  {
    assert -0x8000_0000 <= Advance(blocks) < 0x8000_0000;
  }

  /** The whole blocks of two gigabytes are moved over backwards. */
  lemma TwoGigabytes()
    ensures BlocksLeft(0, 0x8000_0000) == 0x200_0000 && Advance(0x200_0000) == -0x8000_0000
  {
  }

  /** The whole blocks of a piece of len bytes, after the block that num pending bytes have begun. */
  function BlocksLeft(num: int, len: nat): nat
    requires 0 <= num < CBLOCK
  {
    if num == 0 then len / CBLOCK else if num + len < CBLOCK then 0 else (num + len) / CBLOCK - 1
  }

  lemma LeftAfterFill(num: int, len: nat)
    requires 0 <= num < CBLOCK
    ensures num == 0 ==> BlocksLeft(num, len) == len / CBLOCK
    ensures num != 0 && num + len >= CBLOCK ==> BlocksLeft(num, len) == (len - (CBLOCK - num)) / CBLOCK
  {
  }

  class HashCtx<S> {
    /** Byte order of the data words. */
    const big: bool
    /** One compression of sixteen words into the chaining state. */
    const block: (S, seq<bv32>) -> S
    const start: S
    /** Whether there is a block function for unaligned input; without one, blocks are copied to data first. */
    const dataOrder: bool
    const data: array<bv32>
    var chain: S
    var Nl: int
    var Nh: int
    var num: int
    /** Everything hashed so far. */
    ghost var msg: seq<bv8>

    /** The chaining state and the buffer stand for the message m. */
    ghost predicate Collected(m: seq<bv8>)
      reads this, data
    {
      && data.Length == LBLOCK && num == |m| % CBLOCK
      && chain == Fold(big, block, start, m)
      && Holds(big, data[..], Tail(m))
    }

    ghost predicate Valid()
      reads this, data
    {
      Collected(msg) && Counted(Nl, Nh, |msg|)
    }

    constructor (big: bool, block: (S, seq<bv32>) -> S, start: S, dataOrder: bool)
      ensures Valid() && msg == [] && fresh(data)
      ensures this.big == big && this.block == block && this.start == start && this.dataOrder == dataOrder
    {
      this.big, this.block, this.start, this.dataOrder := big, block, start, dataOrder;
      chain, Nl, Nh, num := start, 0, 0, 0;
      data := new bv32[LBLOCK];
      msg := [];
    }

    /** Add len bytes to the 64-bit bit count kept in two words. */
    method Count(len: nat)
      requires Counted(Nl, Nh, |msg|)
      modifies this`Nl, this`Nh
      ensures Counted(Nl, Nh, |msg| + len)
    {
      CountMore(Nl, Nh, |msg|, len);
      var l := (Nl + 8 * len) % WORD;
      if l < Nl {
        Nh := (Nh + 1) % WORD;
      }
      Nh := (Nh + len / 0x2000_0000) % WORD;
      Nl := l;
    }

    /** Store one word that continues the bytes t held so far by the bytes x. */
    method PutWord(k: int, l: bv32, ghost t: seq<bv8>, ghost x: seq<bv8>)
      requires Holds(big, data[..], t) && 0 <= k < LBLOCK && 4 * k <= |t| && |t| + |x| <= 4 * k + 4
      requires l == WordAt(big, t[4 * k..] + x, 0)
      modifies data
      ensures Holds(big, data[..], t + x)
    {
      hide Holds, WordAt;
      HoldsSize(big, data[..], t);
      HoldsMore(big, data[..], t, k, x, l);
      data[k] := l;
    }

    /** The word that holds the last pending bytes is read, filled up from the new data and stored back. */
    method CompleteWord(src: seq<bv8>, c: int, sw: int, sc: int, ghost t: seq<bv8>) returns (c': int)
      requires Holds(big, data[..], t) && 0 <= sw < LBLOCK && 0 <= sc < 4 && |t| == 4 * sw + sc
      requires 0 <= c && c + (4 - sc) <= |src|
      modifies data
      ensures c' == c + (4 - sc) && Holds(big, data[..], t + src[c..c'])
    {
      hide Holds, WordAt;
      HoldsSize(big, data[..], t);
      HoldsLast(big, data[..], t, sw);
      var l := data[sw];
      l, c' := HostPC2l(big, src, c, l, sc, t[4 * sw..]);
      PutWord(sw, l, t, src[c..c']);
    }

    /** The loop that stores whole words of new data up to word ew. */
    method StoreWords(src: seq<bv8>, c: int, sw0: int, ew: int, ghost t: seq<bv8>) returns (c': int)
      requires Holds(big, data[..], t) && 0 <= sw0 <= ew <= LBLOCK && |t| == 4 * sw0
      requires 0 <= c && c + 4 * (ew - sw0) <= |src|
      modifies data
      ensures c' == c + 4 * (ew - sw0) && Holds(big, data[..], t + src[c..c'])
    {
      hide Holds, WordAt;
      var sw := sw0;
      c' := c;
      assert t + src[c..c'] == t;
      HoldsSize(big, data[..], t);
      while sw < ew
        invariant sw0 <= sw <= ew && c' == c + 4 * (sw - sw0)
        invariant Holds(big, data[..], t + src[c..c'])
      {
        ghost var t' := t + src[c..c'];
        var l, e := HostC2l(big, src, c');
        assert t'[4 * sw..] + src[c'..e] == src[c'..e];
        PutWord(sw, l, t', src[c'..e]);
        assert t' + src[c'..e] == t + src[c..e];
        c' := e;
        sw := sw + 1;
      }
    }

    /** HASH_BLOCK_HOST_ORDER on the full buffer. */
    method BlockHostOrder(ghost t: seq<bv8>)
      requires data.Length == LBLOCK && Holds(big, data[..], t) && |t| == CBLOCK
      modifies this`chain
      ensures chain == Fold(big, block, old(chain), t)
    {
      HoldsAll(big, data[..], t);
      FoldOne(big, block, chain, t);
      chain := block(chain, data[..]);
    }

    /** The buffered bytes and new ones complete a block. */
    method FillBlock(src: seq<bv8>, ghost m: seq<bv8>) returns (c: int)
      requires Collected(m) && num != 0 && num + |src| >= CBLOCK
      modifies this`chain, this`num, data
      ensures c == CBLOCK - old(num) && Collected(m + src[..c]) && num == 0
    {
      hide Holds, WordAt, Fold;
      var sw, sc := num / 4, num % 4;
      ghost var t := Tail(m);
      var c1 := CompleteWord(src, 0, sw, sc, t);
      c := StoreWords(src, c1, sw + 1, LBLOCK, t + src[0..c1]);
      assert t + src[0..c1] + src[c1..c] == t + src[..c];
      BlockHostOrder(t + src[..c]);
      FoldMore(big, block, start, m, src[..c]);
      TailMore(m, src[..c]);
      num := 0;
      HoldsNothing(big, data[..]);
    }

    /** New bytes that leave the block incomplete: within the last word, or beyond it. */
    method TopUp(src: seq<bv8>, ghost m: seq<bv8>)
      requires Collected(m) && num != 0 && src != [] && num + |src| < CBLOCK
      modifies this`num, data
      ensures Collected(m + src)
    {
      hide Holds, WordAt, Fold;
      var sw, sc := num / 4, num % 4;
      ghost var t := Tail(m);
      num := num + |src|;
      if sc + |src| < 4 {
        HoldsLast(big, data[..], t, sw);
        HoldsSize(big, data[..], t);
        var l := data[sw];
        l := HostPC2lP(big, src, 0, l, sc, |src|, t[4 * sw..]);
        assert src[0..0 + |src|] == src;
        PutWord(sw, l, t, src);
      } else {
        var ew, ec := num / 4, num % 4;
        var c := CompleteWord(src, 0, sw, sc, t);
        c := StoreWords(src, c, sw + 1, ew, t + src[0..c]);
        assert t + src[0..4 - sc] + src[4 - sc..c] == t + src[..c];
        if ec != 0 {
          LastWord(src, c, ew, t + src[..c]);
        } else {
          assert src[..c] == src;
        }
        assert t + src[..c] + src[c..] == t + src;
      }
      Within(m, src);
    }

    /** The bytes of a last incomplete word, possibly none. */
    method LastWord(src: seq<bv8>, c: int, ew: int, ghost t: seq<bv8>)
      requires Holds(big, data[..], t) && 0 <= ew < LBLOCK && |t| == 4 * ew && 0 <= c <= |src| < c + 4
      modifies data
      ensures Holds(big, data[..], t + src[c..])
    {
      hide Holds, WordAt;
      var l := HostC2lP(big, src, c, |src| - c);
      assert src[c..c + (|src| - c)] == src[c..];
      assert t[4 * ew..] + src[c..] == src[c..];
      PutWord(ew, l, t, src[c..]);
    }

    lemma Within(m: seq<bv8>, x: seq<bv8>)
      requires |Tail(m)| + |x| < CBLOCK && Holds(big, data[..], Tail(m) + x)
      requires data.Length == LBLOCK && chain == Fold(big, block, start, m) && num == |Tail(m)| + |x|
      ensures Collected(m + x)
    {
      hide Holds;
      FoldMore(big, block, start, m, x);
      TailMore(m, x);
      assert Tail(Tail(m) + x) == Tail(m) + x;
    }

    /** HASH_BLOCK_DATA_ORDER: n blocks straight from the input. */
    method BlockDataOrder(src: seq<bv8>, c: int, n: int)
      requires 0 <= c && 0 <= n && c + CBLOCK * n <= |src|
      modifies this`chain
      ensures chain == Fold(big, block, old(chain), src[c..c + CBLOCK * n])
    {
      hide Fold, WordAt;
      var i := 0;
      assert src[c..c] == [];
      FoldShort(big, block, chain, src[c..c]);
      while i < n
        invariant 0 <= i <= n
        invariant chain == Fold(big, block, old(chain), src[c..c + CBLOCK * i])
      {
        ghost var b := src[c + CBLOCK * i..c + CBLOCK * i + CBLOCK];
        FoldAppend(big, block, old(chain), src[c..c + CBLOCK * i], b);
        assert src[c..c + CBLOCK * i] + b == src[c..c + CBLOCK * (i + 1)];
        FoldOne(big, block, chain, b);
        chain := block(chain, Words(big, src[c + CBLOCK * i..c + CBLOCK * i + CBLOCK]));
        i := i + 1;
      }
    }

    /** A whole block copied into the buffer as it is, host and data byte order being the same. */
    method CopyBlock(src: seq<bv8>, c: int)
      requires data.Length == LBLOCK && 0 <= c && c + CBLOCK <= |src|
      modifies data
      ensures Holds(big, data[..], src[c..c + CBLOCK])
    {
      var b := src[c..c + CBLOCK];
      forall k | 0 <= k < LBLOCK {
        data[k] := WordAt(big, b, k);
      }
    }

    /** Whole blocks of input, directly or through the buffer, whose old contents are then lost. */
    method WholeBlocks(src: seq<bv8>, c0: int, aligned: bool, ghost m: seq<bv8>) returns (c: int)
      requires Collected(m) && num == 0 && 0 <= c0 <= |src|
      requires Countable((|src| - c0) / CBLOCK, aligned || dataOrder)
      modifies this`chain, data
      ensures c0 <= c <= |src| < c + CBLOCK && Collected(m + src[c0..c])
    {
      hide Holds, Fold, WordAt;
      CountExact((|src| - c0) / CBLOCK);
      var sw := Int32((|src| - c0) / CBLOCK);
      c := c0;
      assert m + src[c0..c] == m;
      if aligned || dataOrder {
        BlockDataOrder(src, c0, sw);
        sw := Int32(CBLOCK * sw);
        c := c0 + sw;
      } else {
        assert src[c0..c] == [];
        FoldShort(big, block, chain, src[c0..c]);
        while sw > 0
          invariant 0 <= sw && c0 <= c && |src| - c == (|src| - c0) % CBLOCK + CBLOCK * sw
          invariant chain == Fold(big, block, old(chain), src[c0..c])
        {
          CopyBlock(src, c);
          FoldAppend(big, block, old(chain), src[c0..c], src[c..c + CBLOCK]);
          assert src[c0..c] + src[c..c + CBLOCK] == src[c0..c + CBLOCK];
          BlockHostOrder(src[c..c + CBLOCK]);
          c := c + CBLOCK;
          sw := sw - 1;
        }
      }
      FoldMore(big, block, start, m, src[c0..c]);
      assert Tail(m) + src[c0..c] == src[c0..c];
      HoldsNothing(big, data[..]);
    }

    /** What is left after the whole blocks starts a fresh buffer. */
    method Rest(src: seq<bv8>, c: int, ghost m: seq<bv8>)
      requires Collected(m) && num == 0 && 0 <= c <= |src| < c + CBLOCK
      modifies this`num, data
      ensures Collected(m + src[c..])
    {
      hide Holds, Fold, WordAt;
      var len := |src| - c;
      if len != 0 {
        num := len;
        var ew := len / 4;
        var c' := StoreWords(src, c, 0, ew, []);
        assert [] + src[c..c'] == src[c..c'];
        LastWord(src, c', ew, src[c..c']);
        assert src[c..c'] + src[c'..] == src[c..];
        assert Tail(m) + src[c..] == src[c..];
        Within(m, src[c..]);
      } else {
        assert m + src[c..] == m;
      }
    }

    /**
     HASH_UPDATE: whatever the cut, the context afterwards stands for the message extended by src, if the
     whole blocks of src can be counted.
     */
    method Update(src: seq<bv8>, aligned: bool)
      requires Valid() && Countable(BlocksLeft(num, |src|), aligned || dataOrder)
      modifies this, data
      ensures Valid() && msg == old(msg) + src
    {
      hide Holds, Fold, WordAt, Counted, Countable;
      LeftAfterFill(num, |src|);
      hide BlocksLeft;
      if |src| == 0 {
        assert msg + src == msg;
        return;
      }
      ghost var m := msg;
      Count(|src|);
      msg := m + src;
      var c := 0;
      assert m + src[..0] == m;
      if num != 0 {
        if num + |src| >= CBLOCK {
          c := FillBlock(src, m);
        } else {
          TopUp(src, m);
          return;
        }
      }
      ghost var m1 := m + src[..c];
      var c' := WholeBlocks(src, c, aligned, m1);
      ghost var m2 := m1 + src[c..c'];
      Rest(src, c', m2);
      assert m2 + src[c'..] == m + src;
    }

    /** Put the byte 0x80 after the message; the rest of its word becomes zero. */
    method MarkEnd(ghost t: seq<bv8>) returns (i: int)
      requires Holds(big, data[..], t) && |t| == num < CBLOCK
      modifies data
      ensures i == num / 4 + 1 && Holds(big, data[..], t + [0x80] + Zeros(3 - num % 4))
    {
      hide Holds, WordAt;
      HoldsSize(big, data[..], t);
      var end: seq<bv8> := [0x80, 0x00, 0x00, 0x00];
      i := num / 4;
      var j := num % 4;
      HoldsLast(big, data[..], t, i);
      var l := if j == 0 then 0 else data[i];
      var cp;
      l, cp := HostPC2l(big, end, 0, l, j, t[4 * i..]);
      PutWord(i, l, t, end[0..cp]);
      assert t + end[0..cp] == t + [0x80] + Zeros(3 - j);
      i := i + 1;
    }

    /** Zero the words from i up to ew. */
    method ZeroWords(i0: int, ew: int, ghost t: seq<bv8>)
      requires Holds(big, data[..], t) && |t| == 4 * i0 && 0 <= i0 <= ew <= LBLOCK
      modifies data
      ensures Holds(big, data[..], t + Zeros(4 * (ew - i0)))
    {
      hide Holds, WordAt;
      var i := i0;
      assert t + Zeros(0) == t;
      while i < ew
        invariant i0 <= i <= ew && Holds(big, data[..], t + Zeros(4 * (i - i0)))
      {
        ghost var t' := t + Zeros(4 * (i - i0));
        ZeroWord(big, t'[4 * i..] + Zeros(4));
        PutWord(i, 0, t', Zeros(4));
        ZerosAdd(4 * (i - i0), 4);
        assert t' + Zeros(4) == t + (Zeros(4 * (i - i0)) + Zeros(4));
        i := i + 1;
      }
    }

    /** No room left for the length: finish this block with zeros. */
    method Spill(i: int, ghost t: seq<bv8>)
      requires Holds(big, data[..], t) && |t| == 4 * i && LBLOCK - 2 < i <= LBLOCK
      modifies this`chain, data
      ensures data.Length == LBLOCK && Holds(big, data[..], [])
      ensures chain == Fold(big, block, old(chain), t + Zeros(4 * (LBLOCK - i)))
    {
      hide Holds, Fold;
      HoldsSize(big, data[..], t);
      if i < LBLOCK {
        ZeroWords(i, i + 1, t);
      } else {
        assert t + Zeros(0) == t;
      }
      BlockHostOrder(t + Zeros(4 * (LBLOCK - i)));
      HoldsNothing(big, data[..]);
    }

    /** Zero up to the last two words, store the bit count in them, and process the block. */
    method Stamp(i: int, ghost n: nat, ghost t: seq<bv8>)
      requires data.Length == LBLOCK && Holds(big, data[..], t) && |t| == 4 * i && 0 <= i <= LBLOCK - 2
      requires Counted(Nl, Nh, n)
      modifies this`chain, data
      ensures chain == Fold(big, block, old(chain), t + Zeros(4 * (LBLOCK - 2 - i)) + LengthBytes(big, n))
    {
      hide Holds, Fold, WordAt, LowWord, HighWord, Counted, WordBytes;
      ZeroWords(i, LBLOCK - 2, t);
      ghost var t1 := t + Zeros(4 * (LBLOCK - 2 - i));
      var lo, hi := LengthWords(Nl, Nh, n);
      ghost var bl, bh := WordBytes(big, lo), WordBytes(big, hi);
      WordOfTail(big, t1, lo);
      WordOfTail(big, t1, hi);
      if big {
        PutWord(LBLOCK - 2, hi, t1, bh);
        WordOfTail(big, t1 + bh, lo);
        PutWord(LBLOCK - 1, lo, t1 + bh, bl);
        assert t1 + bh + bl == t1 + LengthBytes(big, n);
      } else {
        PutWord(LBLOCK - 2, lo, t1, bl);
        WordOfTail(big, t1 + bl, hi);
        PutWord(LBLOCK - 1, hi, t1 + bl, bh);
        assert t1 + bl + bh == t1 + LengthBytes(big, n);
      }
      BlockHostOrder(t1 + LengthBytes(big, n));
    }

    /** HASH_FINAL: the chaining state becomes the fold over the padded message. */
    method Final()
      requires Valid()
      modifies this, data
      ensures chain == Fold(big, block, start, Pad(big, old(msg))) && num == 0
    {
      hide Holds, Fold, WordAt, Counted, LengthBytes;
      ghost var t := Tail(msg);
      ghost var c0 := chain;
      var i := MarkEnd(t);
      ghost var t1 := t + [0x80] + Zeros(3 - num % 4);
      PadTail(big, block, start, msg);
      if i > LBLOCK - 2 {
        Spill(i, t1);
        ghost var b1 := t1 + Zeros(4 * (LBLOCK - i));
        PadSplit(big, msg, 4 * i, b1);
        i := 0;
        Stamp(i, |msg|, []);
        FoldAppend(big, block, c0, b1, [] + Zeros(56) + LengthBytes(big, |msg|));
      } else {
        Stamp(i, |msg|, t1);
        PadWhole(big, msg, 4 * i);
      }
      num := 0;
    }
  }

  lemma ZeroWord(big: bool, t: seq<bv8>)
    requires t == Zeros(4)
    ensures WordAt(big, t, 0) == 0
  {
    ShortWord(big, 0, 0, 0);
  }

  /** The two counters as words are the words of the bit length. */
  method LengthWords(nl: int, nh: int, ghost n: nat) returns (lo: bv32, hi: bv32)
    requires Counted(nl, nh, n)
    ensures lo == LowWord(8 * n % (WORD * WORD)) && hi == HighWord(8 * n % (WORD * WORD))
  {
    CountedWords(nl, nh, n);
    lo, hi := nl as bv32, nh as bv32;
  }

  /** Storing a word stores its bytes. */
  lemma WordOfTail(big: bool, t: seq<bv8>, w: bv32)
    requires |t| % 4 == 0
    ensures w == WordAt(big, t[4 * (|t| / 4)..] + WordBytes(big, w), 0)
  {
    WordOfBytes(big, w);
    assert t[4 * (|t| / 4)..] + WordBytes(big, w) == WordBytes(big, w);
    hide Word, WordBytes;
  }

  /** What the padding adds, from the last whole block on. */
  ghost function Ending(big: bool, m: seq<bv8>): seq<bv8> {
    Tail(m) + [0x80] + Zeros(ZeroCount(|m|)) + LengthBytes(big, |m|)
  }

  lemma PadTail<S>(big: bool, block: (S, seq<bv32>) -> S, start: S, m: seq<bv8>)
    ensures Fold(big, block, start, Pad(big, m)) == Fold(big, block, Fold(big, block, start, m), Ending(big, m))
  {
    hide Fold, LengthBytes;
    var x := [0x80] + Zeros(ZeroCount(|m|)) + LengthBytes(big, |m|);
    FoldMore(big, block, start, m, x);
    assert Pad(big, m) == m + x;
    assert Ending(big, m) == Tail(m) + x;
  }

  lemma PadWhole(big: bool, m: seq<bv8>, n: int)
    requires n == |Tail(m)| / 4 * 4 + 4 <= 56
    ensures Ending(big, m) == Tail(m) + [0x80] + Zeros(3 - |Tail(m)| % 4) + Zeros(56 - n) + LengthBytes(big, |m|)
  {
    hide LengthBytes;
    ZerosAdd(3 - |Tail(m)| % 4, 56 - n);
    var z, z' := Zeros(3 - |Tail(m)| % 4), Zeros(56 - n);
    assert Tail(m) + [0x80] + z + z' == Tail(m) + [0x80] + (z + z');
  }

  lemma PadSplit(big: bool, m: seq<bv8>, n: int, b1: seq<bv8>)
    requires n == |Tail(m)| / 4 * 4 + 4 && 56 < n <= 64
    requires b1 == Tail(m) + [0x80] + Zeros(3 - |Tail(m)| % 4) + Zeros(64 - n)
    ensures |b1| == CBLOCK && Ending(big, m) == b1 + ([] + Zeros(56) + LengthBytes(big, |m|))
  {
    hide LengthBytes;
    var z, z' := Zeros(3 - |Tail(m)| % 4), Zeros(64 - n);
    ZerosAdd(|z|, |z'|);
    ZerosAdd(|z| + |z'|, 56);
    assert ZeroCount(|m|) == |z| + |z'| + 56;
    assert b1 == Tail(m) + [0x80] + (z + z');
    assert Tail(m) + [0x80] + (z + z' + Zeros(56)) == b1 + Zeros(56);
  }

  /**
   Two contexts of one digest that stand for the same message agree in everything that is ever read,
   however the message was cut.
   */
  lemma SameMessageSameContext<S>(a: HashCtx<S>, b: HashCtx<S>)
    requires a.Valid() && b.Valid() && a.msg == b.msg
    requires a.big == b.big && a.block == b.block && a.start == b.start
    ensures a.chain == b.chain && a.num == b.num && a.Nl == b.Nl && a.Nh == b.Nh
    ensures forall k :: 0 <= k && 4 * k < a.num ==> a.data[k] == b.data[k]
  {
    CountedWords(a.Nl, a.Nh, |a.msg|);
    CountedWords(b.Nl, b.Nh, |b.msg|);
    hide Fold, WordAt, Counted;
    forall k | 0 <= k && 4 * k < a.num ensures a.data[k] == b.data[k] {
      assert a.data[..][k] == b.data[..][k];
    }
  }

  function Concat(pieces: seq<seq<bv8>>): seq<bv8> {
    if pieces == [] then [] else Concat(pieces[..|pieces| - 1]) + pieces[|pieces| - 1]
  }

  /** Hash a message that arrives in pieces. */
  method HashPieces<S>(big: bool, block: (S, seq<bv32>) -> S, start: S, dataOrder: bool,
    pieces: seq<seq<bv8>>, aligned: seq<bool>) returns (digest: S)
    requires |aligned| == |pieces|
    requires forall i :: 0 <= i < |pieces| ==>
      Countable(BlocksLeft(|Concat(pieces[..i])| % CBLOCK, |pieces[i]|), aligned[i] || dataOrder)
    ensures digest == Fold(big, block, start, Pad(big, Concat(pieces)))
  {
    hide Fold, Pad, Countable, BlocksLeft;
    var c := new HashCtx<S>(big, block, start, dataOrder);
    for i := 0 to |pieces|
      invariant c.Valid() && c.msg == Concat(pieces[..i]) && fresh(c) && fresh(c.data)
    {
      assert pieces[..i + 1][..i] == pieces[..i];
      c.Update(pieces[i], aligned[i]);
    }
    assert pieces[..|pieces|] == pieces;
    c.Final();
    digest := c.chain;
  }

  lemma HoldsSize(big: bool, words: seq<bv32>, t: seq<bv8>)
    requires Holds(big, words, t)
    ensures |words| == LBLOCK && |t| <= CBLOCK
  {
  }

  lemma HoldsNothing(big: bool, words: seq<bv32>)
    requires |words| == LBLOCK
    ensures Holds(big, words, [])
  {
  }

  /** A partly filled last word has exactly its bytes, the others zero. */
  lemma HoldsLast(big: bool, words: seq<bv32>, t: seq<bv8>, k: int)
    requires Holds(big, words, t) && 0 <= 4 * k <= |t| && |t| < 4 * k + 4
    ensures |t| > 4 * k ==> words[k] == WordAt(big, t[4 * k..], 0)
  {
    hide WordAt;
    if |t| > 4 * k {
      WordAtAgrees(big, t, t[4 * k..], k, 0);
    }
  }
}
