/**
 What the transfer loops mean for the content of a file: reads are slices and
 writes are patches exactly when the transfer stays in one block or starts in
 the first block of the file.
*/
module Contents {
  import opened DiskImage

  function ByteAt(d: Disk, k: nat, x: nat): byte
    requires k < |d.inodes|
  {
    var idx := d.inodes[k].blocks;
    if x / BLOCK < MAX_BLOCKS_IN_INODE && idx[x / BLOCK] < |d.blocks| then d.blocks[idx[x / BLOCK]][x % BLOCK] else 0
  }

  function Content(d: Disk, k: nat): (s: seq<byte>)
    requires k < |d.inodes|
    ensures |s| == d.inodes[k].length
  {
    seq(d.inodes[k].length, x requires 0 <= x < d.inodes[k].length => ByteAt(d, k, x))
  }

  /** Every byte of the file has a block. */
  ghost predicate Backed(d: Disk, k: nat)
    requires k < |d.inodes|
  {
    forall x :: 0 <= x < d.inodes[k].length ==>
      x / BLOCK < MAX_BLOCKS_IN_INODE && d.inodes[k].blocks[x / BLOCK] < |d.blocks|
  }

  /** The loop's block steps visit the blocks the bytes belong to. */
  predicate Straight(off: nat, n: nat) {
    off < BLOCK || off % BLOCK + n <= BLOCK
  }

  lemma StraightCell(off: nat, n: nat, i: nat)
    requires Straight(off, n) && i < n
    ensures LoopBlock(off, i) == (off + i) / BLOCK && LoopPos(off, i) == (off + i) % BLOCK
  {
  }

  /** Otherwise the first byte past the first block comes from a wrong block. */
  lemma CrookedCell(off: nat, n: nat)
    requires !Straight(off, n)
    ensures var i := BLOCK - off % BLOCK;
            i < n && LoopBlock(off, i) == 1 && (off + i) / BLOCK > 1 && LoopPos(off, i) == (off + i) % BLOCK == 0
  {
  }

  /** The transfer loops, of reads and of writes, address the block each byte
      belongs to if and only if the transfer is straight. */
  lemma StraightIff(off: nat, n: nat)
    ensures Straight(off, n) <==>
      forall i :: 0 <= i < n ==> LoopBlock(off, i) == (off + i) / BLOCK && LoopPos(off, i) == (off + i) % BLOCK
  {
    if Straight(off, n) {
      forall i | 0 <= i < n
        ensures LoopBlock(off, i) == (off + i) / BLOCK && LoopPos(off, i) == (off + i) % BLOCK
      {
        StraightCell(off, n, i);
      }
    } else {
      CrookedCell(off, n);
    }
  }

  /** Where the loops really go: to the end of the first block, and from there on
      through block 1, block 2, ... of the file. */
  lemma LoopPath(off: nat, i: nat)
    ensures var first := BLOCK - off % BLOCK;
            if i < first then LoopBlock(off, i) == off / BLOCK && LoopPos(off, i) == off % BLOCK + i
            else LoopBlock(off, i) == 1 + (i - first) / BLOCK && LoopPos(off, i) == (i - first) % BLOCK
  {
    var z := off % BLOCK + i;
    assert z >= BLOCK ==> z / BLOCK == 1 + (z - BLOCK) / BLOCK && z % BLOCK == (z - BLOCK) % BLOCK;
  }

  lemma {:induction false} MovedAll(idx: BlockList, limit: nat, off: nat, n: nat)
    requires forall i :: 0 <= i < n ==> Usable(idx, limit, off, i)
    ensures Moved(idx, limit, off, n) == n
  {
    if n > 0 {
      MovedAll(idx, limit, off, n - 1);
      assert Usable(idx, limit, off, n - 1);
    }
  }

  /** A read in one block, or from the first block on, returns the slice of the
      file at `off`, as long as the file and the request allow. */
  lemma ReadIsSlice(d: Disk, k: nat, off: nat, n: nat)
    requires k < |d.inodes| && Backed(d, k) && Addressable(off, n)
    requires Straight(off, Available(d.inodes[k].length, off, n))
    ensures var r := Available(d.inodes[k].length, off, n);
            && ReadCount(d, k, off, n) == r
            && (off < d.inodes[k].length ==> ReadBytes(d, k, off, n) == Content(d, k)[off..off + r])
            && (off >= d.inodes[k].length ==> ReadBytes(d, k, off, n) == [])
  {
    var i := d.inodes[k];
    var r := Available(i.length, off, n);
    if off < i.length {
      StraightUsable(i.blocks, |d.blocks|, off, r, i.length);
      MovedAll(i.blocks, |d.blocks|, off, r);
      assert i.blocks[off / BLOCK] < |d.blocks|;
      assert ReadCount(d, k, off, n) == r;
      if r > 0 {
        forall x | 0 <= x < r ensures ReadBytes(d, k, off, n)[x] == Content(d, k)[off + x] {
          PeekAt(d, k, off, r, x);
        }
      }
    }
  }

  lemma StraightUsable(idx: BlockList, limit: nat, off: nat, n: nat, len: nat)
    requires Straight(off, n) && off + n <= len
    requires forall x :: 0 <= x < len ==> x / BLOCK < MAX_BLOCKS_IN_INODE && idx[x / BLOCK] < limit
    ensures forall i :: 0 <= i < n ==> Usable(idx, limit, off, i)
  {
    forall i | 0 <= i < n ensures Usable(idx, limit, off, i) {
      StraightCell(off, n, i);
    }
  }

  lemma PeekAt(d: Disk, k: nat, off: nat, n: nat, x: nat)
    requires k < |d.inodes| && Straight(off, n) && x < n && off + n <= d.inodes[k].length && Backed(d, k)
    requires forall i :: 0 <= i < n ==> Usable(d.inodes[k].blocks, |d.blocks|, off, i)
    ensures Peek(d.blocks, d.inodes[k].blocks, off, n)[x] == ByteAt(d, k, off + x)
  {
    StraightCell(off, n, x);
    assert Usable(d.inodes[k].blocks, |d.blocks|, off, x);
  }

  // ---------------------------------------------------------------- writes

  /** A block the loop does not write keeps its bytes. */
  lemma {:induction false} PokeFrame(blocks: seq<Block>, idx: BlockList, off: nat, buf: seq<byte>, b: nat)
    requires b < |blocks|
    requires forall i :: 0 <= i < |buf| ==> Usable(idx, |blocks|, off, i) && idx[LoopBlock(off, i)] != b
    ensures Poke(blocks, idx, off, buf)[b] == blocks[b]
  {
    if buf != [] {
      var n := |buf| - 1;
      assert Usable(idx, |blocks|, off, n) && idx[LoopBlock(off, n)] != b;
      PokeFrame(blocks, idx, off, buf[..n], b);
    }
  }

  /** A straight write into blocks of its own changes just the bytes at
      off..off + |buf| of the file. */
  lemma {:induction false} PokeByte(blocks: seq<Block>, idx: BlockList, off: nat, buf: seq<byte>, x: nat)
    requires Straight(off, |buf|)
    requires x / BLOCK < MAX_BLOCKS_IN_INODE && idx[x / BLOCK] < |blocks|
    requires forall i :: 0 <= i < |buf| ==>
      Usable(idx, |blocks|, off, i) && (LoopBlock(off, i) == x / BLOCK || idx[LoopBlock(off, i)] != idx[x / BLOCK])
    ensures Poke(blocks, idx, off, buf)[idx[x / BLOCK]][x % BLOCK]
         == if off <= x < off + |buf| then buf[x - off] else blocks[idx[x / BLOCK]][x % BLOCK]
  {
    if buf != [] {
      hide Poke, LoopBlock, LoopPos, Usable;
      var n := |buf| - 1;
      StraightCell(off, |buf|, n);
      PokeLast(blocks, idx, off, buf);
      assert Usable(idx, |blocks|, off, n);
      PokeByte(blocks, idx, off, buf[..n], x);
    }
  }
}
