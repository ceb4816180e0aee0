/** Blocks of a file, and items packed into a block. */
module BlockFile {
  import opened Arith
  import opened Wrappers

  /** The whole blocks of a file, in order. */
  function Blocks(bytes: seq<bv8>, size: nat): (b: seq<seq<bv8>>)
    requires size > 0
    ensures |b| == |bytes| / size
  {
    if |bytes| < size then
      DivUnique(|bytes|, size, 0);
      []
    else
      BlockCount(|bytes|, size);
      [bytes[..size]] + Blocks(bytes[size..], size)
  }

  lemma BlockCount(n: int, size: int)
    requires 0 < size <= n
    ensures n / size == (n - size) / size + 1 && n % size == (n - size) % size
  {
    var q := (n - size) / size;
    assert n - size == size * q + (n - size) % size;
    MulDist(size, q, 1);
    DivUnique(n, size, q + 1);
  }

  /** Block k starts at k times the block size. */
  lemma {:induction false} BlocksAt(bytes: seq<bv8>, size: nat, k: nat)
    requires size > 0 && k < |bytes| / size
    ensures k * size + size <= |bytes| && Blocks(bytes, size)[k] == bytes[k * size..k * size + size]
    decreases k
  {
    if |bytes| < size {
      DivUnique(|bytes|, size, 0);
      assert false;
    }
    BlockCount(|bytes|, size);
    if k > 0 {
      BlocksAt(bytes[size..], size, k - 1);
      assert k * size == (k - 1) * size + size;
      assert bytes[size..][(k - 1) * size..(k - 1) * size + size] == bytes[k * size..k * size + size];
    } else {
      assert k * size == 0;
    }
  }

  /** Overwriting block k. */
  lemma {:induction false} BlocksPut(bytes: seq<bv8>, size: nat, k: nat, blk: seq<bv8>)
    requires size > 0 && k < |bytes| / size && |blk| == size
    ensures k * size + size <= |bytes|
    ensures Blocks(bytes[..k * size] + blk + bytes[k * size + size..], size) == Blocks(bytes, size)[k := blk]
    decreases k
  {
    BlocksAt(bytes, size, k);
    var w := bytes[..k * size] + blk + bytes[k * size + size..];
    if k == 0 {
      assert k * size == 0;
      assert w[..size] == blk && w[size..] == bytes[size..];
    } else {
      assert k * size == (k - 1) * size + size;
      var rest := bytes[size..];
      BlockCount(|bytes|, size);
      BlocksPut(rest, size, k - 1, blk);
      assert w[..size] == bytes[..size];
      assert w[size..] == rest[..(k - 1) * size] + blk + rest[(k - 1) * size + size..];
    }
  }

  /** A block behind a file of whole blocks. */
  lemma {:induction false} BlocksAppend(bytes: seq<bv8>, size: nat, blk: seq<bv8>)
    requires size > 0 && |bytes| % size == 0 && |blk| == size
    ensures Blocks(bytes + blk, size) == Blocks(bytes, size) + [blk]
    decreases |bytes|
  {
    if |bytes| < size {
      assert bytes == [] && bytes + blk == blk && blk[..size] == blk && blk[size..] == [];
    } else {
      BlockCount(|bytes|, size);
      BlocksAppend(bytes[size..], size, blk);
      assert (bytes + blk)[..size] == bytes[..size] && (bytes + blk)[size..] == bytes[size..] + blk;
    }
  }

  function Zeros(n: nat): (z: seq<bv8>)
    ensures |z| == n && forall i :: 0 <= i < n ==> z[i] == 0
  {
    seq(n, i => 0)
  }

  /** The blocks after block k is written. */
  function WithBlock(blocks: seq<seq<bv8>>, k: nat, blk: seq<bv8>, size: nat): (b: seq<seq<bv8>>)
    ensures |blocks| <= |b| && k < |b| && b[k] == blk && forall j :: 0 <= j < |blocks| && j != k ==> b[j] == blocks[j]
    ensures (|b| == |blocks| || |b| == k + 1) && forall j :: |blocks| <= j < k ==> b[j] == Zeros(size)
  {
    if k < |blocks| then blocks[k := blk] else blocks + seq(k - |blocks|, i => Zeros(size)) + [blk]
  }

  /** A file of whole blocks extended by n blocks of zeros. */
  lemma {:induction false} BlocksZeros(bytes: seq<bv8>, size: nat, n: nat)
    requires size > 0 && |bytes| % size == 0
    ensures n * size >= 0 && (|bytes| + n * size) % size == 0
    ensures Blocks(bytes + Zeros(n * size), size) == Blocks(bytes, size) + seq(n, i => Zeros(size))
    decreases n
  {
    if n == 0 {
      assert bytes + Zeros(0) == bytes;
    } else {
      BlocksZeros(bytes, size, n - 1);
      assert n * size == (n - 1) * size + size;
      BlocksAppend(bytes + Zeros((n - 1) * size), size, Zeros(size));
      BlockCount(|bytes| + n * size, size);
      assert bytes + Zeros(n * size) == bytes + Zeros((n - 1) * size) + Zeros(size);
      var z: seq<seq<bv8>> := seq(n - 1, i => Zeros(size));
      assert seq(n, i => Zeros(size)) == z + [Zeros(size)];
    }
  }

  lemma InFile(k: nat, size: nat, n: nat)
    requires size > 0 && n % size == 0 && k * size < n
    ensures k < n / size && k * size + size <= n
  {
    assert n == n / size * size;
    if k >= n / size {
      MulLe(n / size, k, size);
    }
    MulLe(k + 1, n / size, size);
    assert (k + 1) * size == k * size + size;
  }

  lemma PastEnd(k: nat, size: nat, n: nat)
    requires size > 0 && n % size == 0 && k * size >= n
    ensures k >= n / size && (k - n / size) * size == k * size - n
  {
    assert n == n / size * size;
    assert (k + 1) * size == k * size + size;
    if k < n / size {
      MulLe(k + 1, n / size, size);
    }
    MulDist(size, k, -(n / size));
  }

  /** An open block file. */
  class File {
    var bytes: seq<bv8>

    constructor ()
      ensures bytes == []
    {
      bytes := [];
    }

    /** Seek to the offset of the block and read; a block beyond the end is an error. */
    method GetFileBlock(k: nat, size: nat) returns (blk: Option<seq<bv8>>)
      requires size > 0
      ensures blk == if k < |Blocks(bytes, size)| then Some(Blocks(bytes, size)[k]) else None
    {
      var offset := k * size;
      if offset + size <= |bytes| {
        Inside(k, size, |bytes|);
        BlocksAt(bytes, size, k);
        return Some(bytes[offset..offset + size]);
      }
      if k < |bytes| / size {
        BlocksAt(bytes, size, k);
      }
      blk := None;
    }

    /** Seek to the offset of the block and write; beyond the end the blocks between become zeros. */
    method PutFileBlock(blk: seq<bv8>, k: nat, size: nat)
      requires size > 0 && |blk| == size && |bytes| % size == 0
      modifies this
      ensures Blocks(bytes, size) == WithBlock(old(Blocks(bytes, size)), k, blk, size) && |bytes| % size == 0
    {
      var offset := k * size;
      ghost var n := |bytes| / size;
      if offset < |bytes| {
        InFile(k, size, |bytes|);
        BlocksPut(bytes, size, k, blk);
        bytes := bytes[..offset] + blk + bytes[offset + size..];
      } else {
        PastEnd(k, size, |bytes|);
        BlocksZeros(bytes, size, k - n);
        bytes := bytes + Zeros(offset - |bytes|);
        WholeBlocks(k, size);
        BlocksAppend(bytes, size, blk);
        BlockCount(|bytes| + size, size);
        bytes := bytes + blk;
      }
    }

    /** Write behind the end; the number of the new block is the old length in blocks. */
    method AppendFileBlock(blk: seq<bv8>, size: nat) returns (k: nat)
      requires size > 0 && |blk| == size && |bytes| % size == 0
      modifies this
      ensures Blocks(bytes, size) == old(Blocks(bytes, size)) + [blk]
      ensures k == old(|Blocks(bytes, size)|) && |bytes| % size == 0
    {
      var offset := |bytes|;
      BlocksAppend(bytes, size, blk);
      BlockCount(|bytes| + size, size);
      bytes := bytes + blk;
      k := offset / size;
    }
  }

  lemma Inside(k: nat, size: nat, n: nat)
    requires size > 0 && k * size + size <= n
    ensures k < n / size
  {
    DivBracket(n, size);
    assert (k + 1) * size == k * size + size;
    if n / size <= k {
      MulLe(n / size + 1, k + 1, size);
    }
  }

  function Concat(items: seq<seq<bv8>>): seq<bv8> {
    if items == [] then [] else items[0] + Concat(items[1..])
  }

  /** What was packed into a block is what is unpacked from it. */
  lemma {:induction false} PackUnpack(items: seq<seq<bv8>>, size: nat)
    requires size > 0 && forall i :: 0 <= i < |items| ==> |items[i]| == size
    ensures |Concat(items)| == |items| * size && Blocks(Concat(items), size) == items
  {
    if items != [] {
      PackUnpack(items[1..], size);
      var rest := Concat(items[1..]);
      assert Concat(items) == items[0] + rest;
      assert (items[0] + rest)[..size] == items[0] && (items[0] + rest)[size..] == rest;
      assert |items| * size == (|items| - 1) * size + size;
    } else {
      DivUnique(0, size, 0);
    }
  }

  /** Copy the items of the list into the block from offset on; a list of another length is an error. */
  method ListToBlock(lh: seq<seq<bv8>>, blk: array<bv8>, size: nat, num: nat, offset: nat) returns (ok: bool)
    requires size > 0 && (forall i :: 0 <= i < |lh| ==> |lh[i]| == size) && offset + num * size <= blk.Length
    modifies blk
    ensures ok <==> |lh| == num
    ensures !ok ==> blk[..] == old(blk[..])
    ensures ok ==> blk[..] == old(blk[..offset]) + Concat(lh) + old(blk[offset + num * size..])
    ensures ok ==> Blocks(Concat(lh), size) == lh && |Concat(lh)| == num * size
  {
    if |lh| != num {
      return false;
    }
    hide Concat, Blocks;
    PackUnpack(lh, size);
    ghost var s := blk[..];
    var i, pos := 0, offset;
    assert lh[..0] == [] && lh[..num] == lh;
    assert s == s[..offset] + [] + s[offset..];
    while i < num
      invariant 0 <= i <= num && pos == offset + i * size <= offset + num * size
      invariant |Concat(lh[..i])| == pos - offset
      invariant blk[..] == s[..offset] + Concat(lh[..i]) + s[pos..]
    {
      ConcatSnoc(lh[..i], lh[i]);
      assert lh[..i + 1] == lh[..i] + [lh[i]];
      NextItem(i, num, size);
      PackItem(lh[i], blk, pos, s[..offset], Concat(lh[..i]), s[pos..]);
      assert s[pos..][size..] == s[pos + size..];
      i, pos := i + 1, pos + size;
    }
    ok := true;
  }

  lemma NextItem(i: nat, num: nat, size: nat)
    requires i < num
    ensures (i + 1) * size == i * size + size <= num * size
  {
    MulLe(i + 1, num, size);
  }

  lemma Splice<T>(a: seq<T>, b: seq<T>, c: seq<T>, x: seq<T>, s: seq<T>)
    requires s == a + b + c && |c| >= |x|
    ensures s[..|a| + |b|] + x + s[|a| + |b| + |x|..] == a + (b + x) + c[|x|..]
  {
  }

  lemma {:induction false} ConcatSnoc(items: seq<seq<bv8>>, x: seq<bv8>)
    ensures Concat(items + [x]) == Concat(items) + x
  {
    if items == [] {
      assert [x][1..] == [] && Concat([x]) == x + [];
    } else {
      ConcatSnoc(items[1..], x);
      assert (items + [x])[1..] == items[1..] + [x];
    }
  }

  /** memcpy of one item. */
  method CopyItem(item: seq<bv8>, blk: array<bv8>, at: nat)
    requires at + |item| <= blk.Length
    modifies blk
    ensures blk[..] == old(blk[..at]) + item + old(blk[at + |item|..])
  {
    forall j | 0 <= j < |item| {
      blk[at + j] := item[j];
    }
  }

  method PackItem(item: seq<bv8>, blk: array<bv8>, at: nat, ghost a: seq<bv8>, ghost b: seq<bv8>, ghost c: seq<bv8>)
    requires blk[..] == a + b + c && at == |a| + |b| && |c| >= |item|
    modifies blk
    ensures blk[..] == a + (b + item) + c[|item|..]
  {
    Splice(a, b, c, item, blk[..]);
    assert blk.Length == |blk[..]|;
    assert blk[..at] == blk[..][..at] && blk[at + |item|..] == blk[..][at + |item|..];
    CopyItem(item, blk, at);
  }

  /** Append num items of the block, from offset on, to the list. */
  method BlockToList(lh: seq<seq<bv8>>, blk: array<bv8>, size: nat, num: nat, offset: nat) returns (r: seq<seq<bv8>>)
    requires size > 0 && offset + num * size <= blk.Length
    ensures r == lh + Blocks(blk[offset..offset + num * size], size)
  {
    r := lh;
    var i := 0;
    assert blk[offset..offset] == [];
    while i < num
      invariant 0 <= i <= num && i * size <= num * size
      invariant r == lh + Blocks(blk[offset..offset + i * size], size)
    {
      NextItem(i, num, size);
      var bp := blk[offset + i * size..offset + i * size + size];
      WholeBlocks(i, size);
      BlocksAppend(blk[offset..offset + i * size], size, bp);
      assert blk[offset..offset + (i + 1) * size] == blk[offset..offset + i * size] + bp;
      r := r + [bp];
      i := i + 1;
    }
  }

  lemma WholeBlocks(i: nat, size: nat)
    requires size > 0
    ensures i * size % size == 0
  {
    DivUnique(i * size, size, i);
  }
}
