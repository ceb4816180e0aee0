/** How a block of an index lies in the block file: header, then the items, then room. */
module BlockImage {
  import opened Arith
  import opened Wrappers
  import opened BlockFile
  import IdxBlk

  /** What an int and a file offset can be. */
  predicate IsInt(x: int) { -0x8000_0000 <= x < 0x8000_0000 }

  predicate IsOffset(x: int) { -0x8000_0000_0000_0000 <= x < 0x8000_0000_0000_0000 }

  /** A block header in bytes and back: number of items, previous block and next block. */
  datatype Codec = Codec(enc: (int, int, int) -> seq<bv8>, dec: seq<bv8> -> (int, int, int), size: nat)
  {
    ghost predicate Valid() {
      forall num, prev, next :: IsInt(num) && IsOffset(prev) && IsOffset(next) ==>
        |enc(num, prev, next)| == size && dec(enc(num, prev, next)) == (num, prev, next)
    }
  }

  type Item = seq<bv8>

  /** Sizes of an index file: bytes of an item and of a block. */
  datatype Layout = Layout(codec: Codec, itemSize: nat, blockSize: nat)
  {
    ghost predicate Valid() {
      codec.Valid() && itemSize > 0 && blockSize > 0 && codec.size <= blockSize && IsInt(blockSize)
    }

    /** The block can be written: items of the right size, not more than there is room for, and links that fit. */
    ghost predicate Fits(b: IdxBlk.Block<Item>) {
      && (forall i :: 0 <= i < |b.items| ==> |b.items[i]| == itemSize)
      && codec.size + |b.items| * itemSize <= blockSize
      && IsOffset(b.prev) && IsOffset(b.next)
    }
  }

  /** The bytes stand for the block. */
  ghost predicate Stands(l: Layout, bytes: seq<bv8>, b: IdxBlk.Block<Item>) {
    && |bytes| == l.blockSize && l.Valid() && l.Fits(b)
    && l.codec.dec(bytes[..l.codec.size]) == (|b.items|, b.prev, b.next)
    && Blocks(bytes[l.codec.size..l.codec.size + |b.items| * l.itemSize], l.itemSize) == b.items
  }

  /** The file stands for the disk of the cache; block 0 holds the control data. */
  ghost predicate FileStands(l: Layout, file: seq<bv8>, disk: seq<IdxBlk.Block<Item>>) {
    && l.Valid() && |file| % l.blockSize == 0 && |Blocks(file, l.blockSize)| == |disk|
    && forall k :: 0 < k < |disk| ==> Stands(l, Blocks(file, l.blockSize)[k], disk[k])
  }

  /** The largest number of items the index allows in a block is one for which there is room. */
  lemma MaxItemsFit(l: Layout, b: IdxBlk.Block<Item>)
    requires l.Valid() && forall i :: 0 <= i < |b.items| ==> |b.items[i]| == l.itemSize
    requires IsOffset(b.prev) && IsOffset(b.next)
    ensures |b.items| <= (l.blockSize - l.codec.size) / l.itemSize <==> l.Fits(b)
  {
    var room := l.blockSize - l.codec.size;
    DivBracket(room, l.itemSize);
    if |b.items| <= room / l.itemSize {
      MulLe(|b.items|, room / l.itemSize, l.itemSize);
    } else {
      MulLe(room / l.itemSize + 1, |b.items|, l.itemSize);
    }
  }

  /** A number of items for which there is room is an int. */
  lemma CountIsInt(l: Layout, b: IdxBlk.Block<Item>)
    requires l.Valid() && l.Fits(b)
    ensures IsInt(|b.items|)
  {
    MulLe(1, l.itemSize, |b.items|);
  }

  /** Header and list of a block into its buffer, as before it is written back. */
  method Fill(l: Layout, b: IdxBlk.Block<Item>, blk: array<bv8>)
    requires l.Valid() && l.Fits(b) && blk.Length == l.blockSize
    modifies blk
    ensures Stands(l, blk[..], b)
  {
    CountIsInt(l, b);
    var h := l.codec.enc(|b.items|, b.prev, b.next);
    CopyItem(h, blk, 0);
    ghost var s := blk[..];
    assert s[..l.codec.size] == h;
    PackUnpack(b.items, l.itemSize);
    var ok := ListToBlock(b.items, blk, l.itemSize, |b.items|, l.codec.size);
    Filled(h, Concat(b.items), s, blk[..]);
  }

  lemma Filled(h: seq<bv8>, c: seq<bv8>, s: seq<bv8>, t: seq<bv8>)
    requires |h| + |c| <= |s| && s[..|h|] == h && t == s[..|h|] + c + s[|h| + |c|..]
    ensures |t| == |s| && t[..|h|] == h && t[|h|..|h| + |c|] == c
  {
  }

  /** A buffer that was read back into header and list. */
  method Take(l: Layout, blk: array<bv8>, ghost b: IdxBlk.Block<Item>) returns (r: IdxBlk.Block<Item>)
    requires Stands(l, blk[..], b)
    ensures r == b
  {
    var h := l.codec.dec(blk[..l.codec.size]);
    assert blk[..][..l.codec.size] == blk[..l.codec.size];
    assert blk[..][l.codec.size..l.codec.size + |b.items| * l.itemSize]
        == blk[l.codec.size..l.codec.size + |b.items| * l.itemSize];
    var items := BlockToList([], blk, l.itemSize, h.0, l.codec.size);
    r := IdxBlk.Block(h.1, h.2, items);
  }

  /** Writing a block back: the file then stands for the disk with that block replaced. */
  method WriteBack(l: Layout, file: File, k: nat, b: IdxBlk.Block<Item>, blk: array<bv8>,
    ghost disk: seq<IdxBlk.Block<Item>>)
    requires FileStands(l, file.bytes, disk) && 0 < k < |disk| && l.Fits(b) && blk.Length == l.blockSize
    modifies file, blk
    ensures FileStands(l, file.bytes, disk[k := b])
  {
    hide Stands, Blocks;
    Fill(l, b, blk);
    StandsSize(l, blk[..], b);
    file.PutFileBlock(blk[..], k, l.blockSize);
  }

  lemma StandsSize(l: Layout, bytes: seq<bv8>, b: IdxBlk.Block<Item>)
    requires Stands(l, bytes, b)
    ensures |bytes| == l.blockSize
  {
  }

  /** A new block behind the file. */
  method AppendNew(l: Layout, file: File, b: IdxBlk.Block<Item>, blk: array<bv8>, ghost disk: seq<IdxBlk.Block<Item>>)
    returns (k: nat)
    requires FileStands(l, file.bytes, disk) && l.Fits(b) && blk.Length == l.blockSize
    modifies file, blk
    ensures FileStands(l, file.bytes, disk + [b]) && k == |disk|
  {
    hide Stands, Blocks;
    Fill(l, b, blk);
    StandsSize(l, blk[..], b);
    k := file.AppendFileBlock(blk[..], l.blockSize);
  }

  /** Reading a block: exactly what the disk stands for, and nothing beyond the end of the file. */
  method ReadIn(l: Layout, file: File, k: nat, blk: array<bv8>, ghost disk: seq<IdxBlk.Block<Item>>)
    returns (r: Option<IdxBlk.Block<Item>>)
    requires FileStands(l, file.bytes, disk) && k > 0 && blk.Length == l.blockSize
    modifies blk
    ensures r == if k < |disk| then Some(disk[k]) else None
  {
    var got := file.GetFileBlock(k, l.blockSize);
    match got
    case None =>
      return None;
    case Some(bytes) =>
      CopyItem(bytes, blk, 0);
      assert blk[..] == bytes;
      var b := Take(l, blk, disk[k]);
      return Some(b);
  }

  /** What the cache writes back and loads again is the same block. */
  method WriteThenRead(l: Layout, file: File, k: nat, b: IdxBlk.Block<Item>, blk: array<bv8>,
    ghost disk: seq<IdxBlk.Block<Item>>) returns (r: Option<IdxBlk.Block<Item>>)
    requires FileStands(l, file.bytes, disk) && 0 < k < |disk| && l.Fits(b) && blk.Length == l.blockSize
    modifies file, blk
    ensures r == Some(b) && FileStands(l, file.bytes, disk[k := b])
  {
    hide FileStands, Blocks;
    WriteBack(l, file, k, b, blk, disk);
    r := ReadIn(l, file, k, blk, disk[k := b]);
  }
}
