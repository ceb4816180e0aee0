/** The header of a block as it lies in memory where an int has four bytes and a file offset eight. */
module HeaderBytes {
  import opened Arith
  import opened Wrappers
  import opened BlockFile
  import opened BlockImage
  import IdxBlk

  /** Two to the n. */
  function Range(n: nat): (r: nat)
    ensures r >= 1
  {
    if n == 0 then 1 else 2 * Range(n - 1)
  }

  /** The lowest n binary digits of x, lowest first. */
  function Bits(x: nat, n: nat): (b: seq<bool>)
    ensures |b| == n
  {
    if n == 0 then [] else [x % 2 == 1] + Bits(x / 2, n - 1)
  }

  function Number(b: seq<bool>): nat {
    if b == [] then 0 else (if b[0] then 1 else 0) + 2 * Number(b[1..])
  }

  lemma {:induction false} BitsBack(x: nat, n: nat)
    requires x < Range(n)
    ensures Number(Bits(x, n)) == x
  {
    if n > 0 {
      BitsBack(x / 2, n - 1);
      assert Bits(x, n)[1..] == Bits(x / 2, n - 1);
    }
  }

  function Byte(b: seq<bool>): bv8
    requires |b| == 8
  {
    (if b[0] then 0x01 else 0) | (if b[1] then 0x02 else 0) | (if b[2] then 0x04 else 0) | (if b[3] then 0x08 else 0)
    | (if b[4] then 0x10 else 0) | (if b[5] then 0x20 else 0) | (if b[6] then 0x40 else 0) | (if b[7] then 0x80 else 0)
  }

  function BitsOf(c: bv8): (b: seq<bool>)
    ensures |b| == 8
  {
    [ c & 0x01 != 0, c & 0x02 != 0, c & 0x04 != 0, c & 0x08 != 0,
      c & 0x10 != 0, c & 0x20 != 0, c & 0x40 != 0, c & 0x80 != 0
    ]
  }

  lemma ByteBack(b: seq<bool>)
    requires |b| == 8
    ensures BitsOf(Byte(b)) == b
  {
  }

  /** Every eight binary digits in a byte. */
  function Packed(b: seq<bool>): (s: seq<bv8>)
    requires |b| % 8 == 0
    ensures |s| == |b| / 8
  {
    if b == [] then [] else [Byte(b[..8])] + Packed(b[8..])
  }

  function Unpacked(s: seq<bv8>): (b: seq<bool>)
    ensures |b| == 8 * |s|
  {
    if s == [] then [] else BitsOf(s[0]) + Unpacked(s[1..])
  }

  lemma {:induction false} PackedBack(b: seq<bool>)
    requires |b| % 8 == 0
    ensures Unpacked(Packed(b)) == b
    decreases |b|
  {
    hide Byte, BitsOf;
    if b != [] {
      ByteBack(b[..8]);
      PackedBack(b[8..]);
      assert Packed(b)[1..] == Packed(b[8..]);
      assert b == b[..8] + b[8..];
    }
  }

  /** Eight binary digits of a number as a byte are its remainder by 256. */
  lemma ByteIs(b: seq<bool>)
    requires |b| == 8
    ensures Byte(b) as int == (if b[0] then 1 else 0) + (if b[1] then 2 else 0) + (if b[2] then 4 else 0)
      + (if b[3] then 8 else 0) + (if b[4] then 16 else 0) + (if b[5] then 32 else 0) + (if b[6] then 64 else 0)
      + (if b[7] then 128 else 0)
  {
  }

  /** The binary digits of x from place k on are those of x over 2^k. */
  lemma {:induction false} BitsFrom(x: nat, n: nat, k: nat)
    requires k <= n
    ensures Bits(x, n)[k..] == Bits(x / Range(k), n - k)
    decreases k
  {
    if k > 0 {
      BitsFrom(x / 2, n - 1, k - 1);
      assert Bits(x, n)[k..] == Bits(x / 2, n - 1)[k - 1..];
      DivDiv(x, 2, Range(k - 1));
    }
  }

  /** The lowest ones do not depend on how many are taken. */
  lemma {:induction false} BitsTo(x: nat, n: nat, k: nat)
    requires k <= n
    ensures Bits(x, n)[..k] == Bits(x, k)
    decreases k
  {
    if k > 0 {
      BitsTo(x / 2, n - 1, k - 1);
      assert Bits(x, n)[..k] == [x % 2 == 1] + Bits(x / 2, n - 1)[..k - 1];
    }
  }

  lemma {:induction false} PackedAt(b: seq<bool>, i: nat)
    requires |b| % 8 == 0 && 8 * i + 8 <= |b|
    ensures Packed(b)[i] == Byte(b[8 * i..8 * i + 8])
    decreases i
  {
    hide Byte;
    if i > 0 {
      PackedAt(b[8..], i - 1);
      SliceAfter(b, 8, 8 * (i - 1), 8);
      assert Packed(b)[i] == Packed(b[8..])[i - 1];
      hide Packed;
    }
  }

  lemma SliceAfter<T>(b: seq<T>, from: nat, k: nat, n: nat)
    requires from + k + n <= |b|
    ensures b[from..][k..k + n] == b[from + k..from + k + n]
  {
  }

  lemma EightBits(y: nat)
    ensures Byte(Bits(y, 8)) as int == y % 256
  {
    ByteIs(Bits(y, 8));
    EightDigits(y);
    hide Byte, Bits;
  }

  lemma EightDigits(y: nat)
    ensures var b := Bits(y, 8);
      (if b[0] then 1 else 0) + (if b[1] then 2 else 0) + (if b[2] then 4 else 0) + (if b[3] then 8 else 0)
      + (if b[4] then 16 else 0) + (if b[5] then 32 else 0) + (if b[6] then 64 else 0) + (if b[7] then 128 else 0)
      == y % 256
  {
    FourBits(y);
    FourBits(y / 16);
    BitsFrom(y, 8, 4);
    BitsTo(y, 8, 4);
    assert Range(4) == 16;
    var b := Bits(y, 8);
    assert b[..4] == Bits(y, 4) && b[4..] == Bits(y / 16, 4);
    assert b[4] == b[4..][0] && b[5] == b[4..][1] && b[6] == b[4..][2] && b[7] == b[4..][3];
    hide *;
    Mod256(y);
  }

  lemma Mod256(y: nat)
    ensures y % 256 == y % 16 + 16 * (y / 16 % 16)
  {
    var q := y / 16;
    assert y == 256 * (q / 16) + (y % 16 + 16 * (q % 16));
  }

  lemma FourBits(y: nat)
    ensures var b := Bits(y, 4);
      (if b[0] then 1 else 0) + (if b[1] then 2 else 0) + (if b[2] then 4 else 0) + (if b[3] then 8 else 0) == y % 16
  {
    TwoBits(y);
    TwoBits(y / 4);
    BitsFrom(y, 4, 2);
    BitsTo(y, 4, 2);
    assert Range(2) == 4;
    var b := Bits(y, 4);
    assert b[..2] == Bits(y, 2) && b[2..] == Bits(y / 4, 2);
    assert b[2] == b[2..][0] && b[3] == b[2..][1];
    hide *;
    Mod16(y);
  }

  lemma Mod16(y: nat)
    ensures y % 16 == y % 4 + 4 * (y / 4 % 4)
  {
  }

  lemma TwoBits(y: nat)
    ensures var b := Bits(y, 2); (if b[0] then 1 else 0) + (if b[1] then 2 else 0) == y % 4
  {
    assert Bits(y, 2) == [y % 2 == 1] + Bits(y / 2, 1) && Bits(y / 2, 1) == [y / 2 % 2 == 1] + Bits(y / 4, 0);
  }

  /** Byte i of a number kept in n bytes, counted from the lowest. */
  lemma BytesAre(x: nat, n: nat, i: nat)
    requires i < n
    ensures Packed(Bits(x, 8 * n))[i] as int == x / Range(8 * i) % 256
  {
    hide *;
    var b, y := Bits(x, 8 * n), x / Range(8 * i);
    PackedAt(b, i);
    BitsFrom(x, 8 * n, 8 * i);
    BitsTo(y, 8 * n - 8 * i, 8);
    SliceEight(b, 8 * i);
    EightBits(y);
  }

  lemma SliceEight(b: seq<bool>, k: nat)
    requires k + 8 <= |b|
    ensures b[k..k + 8] == b[k..][..8]
  {
  }

  /** A signed number in n bytes, in two's complement. */
  function SignedBytes(x: int, n: nat): (b: seq<bv8>)
    requires 0 <= x + Range(8 * n)
    ensures |b| == n
  {
    Packed(Bits(if x < 0 then x + Range(8 * n) else x, 8 * n))
  }

  function SignedNumber(b: seq<bv8>): int {
    var x := Number(Unpacked(b));
    if 2 * x >= Range(8 * |b|) then x - Range(8 * |b|) else x
  }

  lemma SignedBack(x: int, n: nat)
    requires 0 <= 2 * x + Range(8 * n) && 2 * x < Range(8 * n)
    ensures SignedNumber(SignedBytes(x, n)) == x
  {
    hide Packed, Unpacked, Bits, Number, Range;
    var y := if x < 0 then x + Range(8 * n) else x;
    BitsBack(y, 8 * n);
    PackedBack(Bits(y, 8 * n));
  }

  const HEADER_SIZE := 24

  /** Four bytes, four unused ones, and twice eight. */
  function HeaderOf(num: int, prev: int, next: int): (b: seq<bv8>) {
    if IsInt(num) && IsOffset(prev) && IsOffset(next) then
      Ranges();
      SignedBytes(num, 4) + [0, 0, 0, 0] + SignedBytes(prev, 8) + SignedBytes(next, 8)
    else []
  }

  function FieldsOf(b: seq<bv8>): (int, int, int) {
    if |b| < HEADER_SIZE then (0, 0, 0)
    else (SignedNumber(b[..4]), SignedNumber(b[8..16]), SignedNumber(b[16..24]))
  }

  /**
   The header byte by byte: the number of items in the first four, the previous block in the eight from the eighth
   on and the next block in the eight after them, lowest byte first; a negative number has 2^32 or 2^64 added.
   */
  lemma HeaderIs(num: int, prev: int, next: int, i: nat)
    requires IsInt(num) && IsOffset(prev) && IsOffset(next) && i < 8
    ensures |HeaderOf(num, prev, next)| == 24
    ensures i < 4 ==>
      HeaderOf(num, prev, next)[i] as int == (if num < 0 then num + 0x1_0000_0000 else num) / Range(8 * i) % 256
    ensures HeaderOf(num, prev, next)[8 + i] as int ==
      (if prev < 0 then prev + 0x1_0000_0000_0000_0000 else prev) / Range(8 * i) % 256
    ensures HeaderOf(num, prev, next)[16 + i] as int ==
      (if next < 0 then next + 0x1_0000_0000_0000_0000 else next) / Range(8 * i) % 256
  {
    Ranges();
    hide Range, Packed, Bits;
    if i < 4 {
      BytesAre(if num < 0 then num + 0x1_0000_0000 else num, 4, i);
    }
    BytesAre(if prev < 0 then prev + 0x1_0000_0000_0000_0000 else prev, 8, i);
    BytesAre(if next < 0 then next + 0x1_0000_0000_0000_0000 else next, 8, i);
  }

  lemma {:induction false} RangeAdd(m: nat, n: nat)
    ensures Range(m + n) == Range(m) * Range(n)
  {
    if m > 0 {
      RangeAdd(m - 1, n);
      MulAssoc(2, Range(m - 1), Range(n));
    }
  }

  lemma Ranges()
    ensures Range(32) == 0x1_0000_0000 && Range(64) == 0x1_0000_0000_0000_0000
  {
    assert Range(4) == 16;
    hide Range;
    RangeAdd(4, 4);
    RangeAdd(8, 8);
    RangeAdd(16, 16);
    RangeAdd(32, 32);
  }

  /** The header as the machine keeps it is one that can be read back. */
  function MachineCodec(): (c: Codec)
    ensures c.Valid() && c.size == HEADER_SIZE
  {
    MachineBack();
    Codec((num, prev, next) => HeaderOf(num, prev, next), (b: seq<bv8>) => FieldsOf(b), HEADER_SIZE)
  }

  lemma MachineBack()
    ensures forall num, prev, next :: IsInt(num) && IsOffset(prev) && IsOffset(next) ==>
      |HeaderOf(num, prev, next)| == HEADER_SIZE && FieldsOf(HeaderOf(num, prev, next)) == (num, prev, next)
  {
    forall num, prev, next | IsInt(num) && IsOffset(prev) && IsOffset(next)
      ensures |HeaderOf(num, prev, next)| == HEADER_SIZE && FieldsOf(HeaderOf(num, prev, next)) == (num, prev, next)
    {
      HeaderBack(num, prev, next);
    }
  }

  lemma HeaderBack(num: int, prev: int, next: int)
    requires IsInt(num) && IsOffset(prev) && IsOffset(next)
    ensures |HeaderOf(num, prev, next)| == HEADER_SIZE && FieldsOf(HeaderOf(num, prev, next)) == (num, prev, next)
  {
    hide SignedNumber, SignedBytes, Range;
    Ranges();
    SignedBack(num, 4);
    SignedBack(prev, 8);
    SignedBack(next, 8);
    var a, b, c := SignedBytes(num, 4), SignedBytes(prev, 8), SignedBytes(next, 8);
    var h := a + [0, 0, 0, 0] + b + c;
    assert h[..4] == a && h[8..16] == b && h[16..24] == c;
  }

  /** An index file of keys of f bytes and blocks of the given size. */
  function IndexLayout(f: nat, blockSize: nat): (l: Layout)
    requires HEADER_SIZE <= blockSize < 0x8000_0000
    ensures l.Valid() && l.codec == MachineCodec()
  {
    Layout(MachineCodec(), f + 8, blockSize)
  }

  /** A file of a control block and one block of the given items. */
  method NewFile(l: Layout, items: seq<Item>) returns (file: File)
    requires l.Valid() && l.Fits(IdxBlk.Block(0, 0, items))
    ensures fresh(file)
    ensures FileStands(l, file.bytes, [IdxBlk.Block(0, 0, []), IdxBlk.Block(0, 0, items)])
  {
    var blk := new bv8[l.blockSize](_ => 0);
    file := new File();
    ghost var control: IdxBlk.Block<Item> := IdxBlk.Block(0, 0, []);
    Control(l, file.bytes, blk[..], control);
    var c := file.AppendFileBlock(blk[..], l.blockSize);
    var k := AppendNew(l, file, IdxBlk.Block(0, 0, items), blk, [control]);
  }

  lemma Control(l: Layout, none: seq<bv8>, blk: seq<bv8>, control: IdxBlk.Block<Item>)
    requires l.Valid() && none == [] && |blk| == l.blockSize
    ensures |none| % l.blockSize == 0 && Blocks(none, l.blockSize) == []
    ensures forall bytes :: Blocks(bytes, l.blockSize) == [blk] && |bytes| % l.blockSize == 0 ==>
      FileStands(l, bytes, [control])
  {
  }

  /** Such a file, with the five items that fit a block of 100 bytes and keys of six. */
  method SmallFile() returns (file: File)
    ensures fresh(file)
    ensures exists disk: seq<IdxBlk.Block<Item>> ::
      |disk| == 2 && |disk[1].items| == 5 && FileStands(IndexLayout(6, 100), file.bytes, disk)
  {
    var item := seq(14, i => 0);
    var items := [item, item, item, item, item];
    file := NewFile(IndexLayout(6, 100), items);
    ghost var disk: seq<IdxBlk.Block<Item>> := [IdxBlk.Block(0, 0, []), IdxBlk.Block(0, 0, items)];
    assert |disk| == 2 && |disk[1].items| == 5;
  }
}
