/**
 Writes on a valid disk: a write that needs at most one new block either does
 nothing because no block is free, or patches exactly the file it names and
 keeps the disk valid.
*/
module Writing {
  import opened DiskImage
  import opened Contents
  import opened Ownership

  /** The new blocks a write at `off` makes write_data ask for. */
  function Need(len: nat, off: nat, n: nat): nat {
    if off < len then 0 else (off + n) / BLOCK - len / BLOCK
  }

  /** The writes write_data delivers: straight, at most one new block, and no
      byte past the blocks the file then has. */
  predicate WriteFits(len: nat, off: nat, n: nat) {
    && Straight(off, n)
    && Need(len, off, n) <= 1
    && (off < len ==> off + n <= (len / BLOCK + 1) * BLOCK)
  }

  predicate NoFreeBlock(d: Disk)
    requires Shape(d)
  {
    FirstFree(d.dataMap, MAX_DATA_BLOCKS) == MAX_DATA_BLOCKS
  }

  function NewLength(len: nat, off: nat, n: nat): nat {
    if off < len then len else off + n
  }

  /** The disk after room was made. */
  function Grown(d: Disk, k: nat, off: nat, n: nat): (g: Disk)
    requires Shape(d) && k < |d.inodes| && (Need(d.inodes[k].length, off, n) > 0 ==> !NoFreeBlock(d))
    requires Need(d.inodes[k].length, off, n) > 0 ==> d.inodes[k].length / BLOCK + 1 < MAX_BLOCKS_IN_INODE
    ensures Shape(g) && OnlyClaims(d, g, k)
  {
    var len := d.inodes[k].length;
    var b := FirstFree(d.dataMap, MAX_DATA_BLOCKS);
    var c := if Need(len, off, n) == 0 then d else SetBlock(SetData(d, b, true), k, len / BLOCK + 1, b);
    SetLength(c, k, NewLength(len, off, n))
  }

  lemma DiffIsNeed(len: nat, off: nat, n: nat)
    requires len / BLOCK + 1 <= MAX_DATA_BLOCKS && off >= len && Addressable(off, n)
    ensures CurrBlocks(len) == len / BLOCK + 1
    ensures BlockDiff(len, off + n) == Need(len, off, n)
  {
    assert (off + n) / BLOCK < 2 * MAX_BLOCKS_IN_INODE by {
      assert off + n < (off / BLOCK) * BLOCK + off % BLOCK + n + 1;
    }
  }

  lemma UndoUnneeded(d: Disk, k: nat, off: nat, n: nat)
    requires Valid(d) && InUse(d, k) && Formatted(d, k) && Addressable(off, n)
    requires Need(d.inodes[k].length, off, n) <= 1
    ensures UndoInRange(d, k, off, n)
  {
    BlocksBounded(d, k);
    assert ListOk(d, k);
    if off >= d.inodes[k].length { DiffIsNeed(d.inodes[k].length, off, n); }
  }

  lemma GrowMeaning(d: Disk, k: nat, off: nat, n: nat)
    requires Valid(d) && InUse(d, k) && Formatted(d, k) && Addressable(off, n)
    requires Need(d.inodes[k].length, off, n) <= 1 && UndoInRange(d, k, off, n)
    ensures var need := Need(d.inodes[k].length, off, n);
            && d.inodes[k].length / BLOCK + 1 < MAX_BLOCKS_IN_INODE
            && Grow(d, k, off, n) == if need == 1 && NoFreeBlock(d) then Claimed(false, d)
                                     else Claimed(true, Grown(d, k, off, n))
  {
    var len := d.inodes[k].length;
    BlocksBounded(d, k);
    if off >= len {
      DiffIsNeed(len, off, n);
      var b := FirstFree(d.dataMap, MAX_DATA_BLOCKS);
      if Need(len, off, n) == 1 && b < MAX_DATA_BLOCKS {
        var c := SetBlock(SetData(d, b, true), k, len / BLOCK + 1, b);
        assert Claim(c, k, len / BLOCK + 1, 1, 1) == Claimed(true, c);
      }
    }
  }

  lemma GrownOwns(d: Disk, k: nat, off: nat, n: nat)
    requires Valid(d) && InUse(d, k) && Formatted(d, k) && Need(d.inodes[k].length, off, n) == 1 && !NoFreeBlock(d)
    requires d.inodes[k].length / BLOCK + 1 < MAX_BLOCKS_IN_INODE
    ensures BlocksUnique(Grown(d, k, off, n))
  {
    var g, b, s := Grown(d, k, off, n), FirstFree(d.dataMap, MAX_DATA_BLOCKS), d.inodes[k].length / BLOCK + 1;
    assert forall l, j, c :: Owns(g, l, j, c) <==> Owns(d, l, j, c) || (l == k && j == s && c == b);
    forall c | 1 <= c < MAX_DATA_BLOCKS ensures g.dataMap[c] <==> exists l, j :: Owns(g, l, j, c) {
      if g.dataMap[c] {
        if c == b {
          assert Owns(g, k, s, b);
        } else {
          var l, j :| Owns(d, l, j, c);
          assert Owns(g, l, j, c);
        }
      }
    }
  }

  lemma LengthOwns(d: Disk, k: nat, len: nat)
    requires Valid(d) && InUse(d, k)
    ensures BlocksUnique(SetLength(d, k, len))
  {
    var g := SetLength(d, k, len);
    assert forall l, j, c :: Owns(g, l, j, c) <==> Owns(d, l, j, c);
    forall c | 1 <= c < MAX_DATA_BLOCKS ensures g.dataMap[c] <==> exists l, j :: Owns(g, l, j, c) {
      if g.dataMap[c] {
        var l, j :| Owns(d, l, j, c);
        assert Owns(g, l, j, c);
      }
    }
  }

  lemma GrownValid(d: Disk, k: nat, off: nat, n: nat)
    requires Valid(d) && InUse(d, k) && Formatted(d, k)
    requires Need(d.inodes[k].length, off, n) <= 1 && (Need(d.inodes[k].length, off, n) == 1 ==> !NoFreeBlock(d))
    requires d.inodes[k].length / BLOCK + 1 < MAX_BLOCKS_IN_INODE
    ensures Valid(Grown(d, k, off, n)) && Formatted(Grown(d, k, off, n), k)
  {
    var g, len := Grown(d, k, off, n), d.inodes[k].length;
    if Need(len, off, n) == 1 {
      GrownOwns(d, k, off, n);
    } else {
      LengthOwns(d, k, NewLength(len, off, n));
    }
    assert forall i, c :: Entry(g, i, c) <==> Entry(d, i, c);
    forall c | 1 <= c < MAX_INODES ensures g.inodeMap[c] <==> exists i :: Entry(g, i, c) {
      if g.inodeMap[c] {
        var i :| Entry(d, i, c);
        assert Entry(g, i, c);
      }
    }
    assert Formatted(g, k);
    forall l | 1 <= l < |g.inodes| ensures ListOk(g, l) {
      assert ListOk(d, l);
    }
  }

  // ---------------------------------------------------------------- the bytes

  /** Every byte a fitting write moves goes to a block of the file. */
  lemma TargetOwned(d: Disk, k: nat, off: nat, n: nat, i: nat)
    requires Valid(d) && InUse(d, k) && Formatted(d, k) && i < n && Straight(off, n)
    requires off + n <= (d.inodes[k].length / BLOCK + 1) * BLOCK
    ensures LoopBlock(off, i) == (off + i) / BLOCK <= d.inodes[k].length / BLOCK
    ensures LoopBlock(off, i) < MAX_BLOCKS_IN_INODE
    ensures Owns(d, k, LoopBlock(off, i), d.inodes[k].blocks[LoopBlock(off, i)])
    ensures Usable(d.inodes[k].blocks, |d.blocks|, off, i)
  {
    StraightCell(off, n, i);
    BlocksBounded(d, k);
    assert ListOk(d, k);
  }

  /** Poking fitting bytes into a valid disk. */
  ghost function Poked(d: Disk, k: nat, off: nat, buf: seq<byte>): (r: Disk)
    requires Valid(d) && InUse(d, k) && Formatted(d, k) && Straight(off, |buf|)
    requires off + |buf| <= (d.inodes[k].length / BLOCK + 1) * BLOCK
    ensures r.inodes == d.inodes && Valid(r) && Formatted(r, k)
    ensures r.dir == d.dir && r.count == d.count && r.inodeMap == d.inodeMap && r.dataMap == d.dataMap
  {
    forall i | 0 <= i < |buf| ensures Usable(d.inodes[k].blocks, |d.blocks|, off, i) {
      TargetOwned(d, k, off, |buf|, i);
    }
    var r := d.(blocks := Poke(d.blocks, d.inodes[k].blocks, off, buf));
    PokedValid(d, r);
    r
  }

  lemma PokedValid(d: Disk, r: Disk)
    requires Valid(d) && r == d.(blocks := r.blocks) && |r.blocks| == |d.blocks|
    ensures Valid(r)
  {
    assert forall l, j, c :: Owns(r, l, j, c) <==> Owns(d, l, j, c);
    assert forall i, c :: Entry(r, i, c) <==> Entry(d, i, c);
    forall c | 1 <= c < MAX_DATA_BLOCKS ensures r.dataMap[c] <==> exists l, j :: Owns(r, l, j, c) {
      if r.dataMap[c] {
        var l, j :| Owns(d, l, j, c);
        assert Owns(r, l, j, c);
      }
    }
    forall c | 1 <= c < MAX_INODES ensures r.inodeMap[c] <==> exists i :: Entry(r, i, c) {
      if r.inodeMap[c] {
        var i :| Entry(d, i, c);
        assert Entry(r, i, c);
      }
    }
    forall l | 1 <= l < |r.inodes| ensures ListOk(r, l) {
      assert ListOk(d, l);
    }
  }

  lemma PokedByte(d: Disk, k: nat, off: nat, buf: seq<byte>, x: nat)
    requires Valid(d) && InUse(d, k) && Formatted(d, k) && Straight(off, |buf|)
    requires off + |buf| <= (d.inodes[k].length / BLOCK + 1) * BLOCK && x < d.inodes[k].length
    ensures ByteAt(Poked(d, k, off, buf), k, x) == if off <= x < off + |buf| then buf[x - off] else ByteAt(d, k, x)
  {
    var idx := d.inodes[k].blocks;
    BlocksBounded(d, k);
    assert ListOk(d, k);
    assert Owns(d, k, x / BLOCK, idx[x / BLOCK]);
    forall i | 0 <= i < |buf|
      ensures Usable(idx, |d.blocks|, off, i) && (LoopBlock(off, i) == x / BLOCK || idx[LoopBlock(off, i)] != idx[x / BLOCK])
    {
      TargetOwned(d, k, off, |buf|, i);
    }
    PokeByte(d.blocks, idx, off, buf, x);
  }

  /** Writing to file k does not touch the bytes of file l. */
  lemma PokedOther(d: Disk, k: nat, off: nat, buf: seq<byte>, l: nat)
    requires Valid(d) && InUse(d, k) && Formatted(d, k) && Straight(off, |buf|)
    requires off + |buf| <= (d.inodes[k].length / BLOCK + 1) * BLOCK && InUse(d, l) && l != k
    ensures Content(Poked(d, k, off, buf), l) == Content(d, l)
  {
    var r, idx := Poked(d, k, off, buf), d.inodes[k].blocks;
    assert ListOk(d, l);
    forall x | 0 <= x < d.inodes[l].length ensures ByteAt(r, l, x) == ByteAt(d, l, x) {
      var b := d.inodes[l].blocks[x / BLOCK];
      assert Owns(d, l, x / BLOCK, b);
      forall i | 0 <= i < |buf| ensures Usable(idx, |d.blocks|, off, i) && idx[LoopBlock(off, i)] != b {
        TargetOwned(d, k, off, |buf|, i);
      }
      PokeFrame(d.blocks, idx, off, buf, b);
    }
  }

  // ---------------------------------------------------------------- write_data

  lemma FitsGrown(d: Disk, k: nat, off: nat, n: nat)
    requires Valid(d) && InUse(d, k) && Formatted(d, k) && WriteFits(d.inodes[k].length, off, n)
    requires !(Need(d.inodes[k].length, off, n) == 1 && NoFreeBlock(d))
    requires d.inodes[k].length / BLOCK + 1 < MAX_BLOCKS_IN_INODE
    ensures off + n <= (Grown(d, k, off, n).inodes[k].length / BLOCK + 1) * BLOCK
  {
  }

  /** A fitting write computes Poked of Grown, or nothing. */
  lemma WriteIsPoked(d: Disk, k: nat, off: nat, buf: seq<byte>)
    requires Valid(d) && InUse(d, k) && Formatted(d, k) && Addressable(off, |buf|)
    requires WriteFits(d.inodes[k].length, off, |buf|) && UndoInRange(d, k, off, |buf|)
    ensures if Need(d.inodes[k].length, off, |buf|) == 1 && NoFreeBlock(d)
            then WriteData(d, k, off, buf) == Outcome(d, -1)
            else
              && d.inodes[k].length / BLOCK + 1 < MAX_BLOCKS_IN_INODE
              && var g := Grown(d, k, off, |buf|);
              && Valid(g) && Formatted(g, k) && off + |buf| <= (g.inodes[k].length / BLOCK + 1) * BLOCK
              && WriteData(d, k, off, buf) == Outcome(Poked(g, k, off, buf), |buf|)
  {
    hide NamesUnique, InodesUnique, BlocksUnique, Formatted, OnlyClaims;
    GrowMeaning(d, k, off, |buf|);
    if !(Need(d.inodes[k].length, off, |buf|) == 1 && NoFreeBlock(d)) {
      GrownValid(d, k, off, |buf|);
      FitsGrown(d, k, off, |buf|);
      var g := Grown(d, k, off, |buf|);
      assert InUse(g, k);
      forall i | 0 <= i < |buf| ensures Usable(g.inodes[k].blocks, |g.blocks|, off, i) {
        TargetOwned(g, k, off, |buf|, i);
      }
      MovedAll(g.inodes[k].blocks, |g.blocks|, off, |buf|);
      assert buf[..|buf|] == buf;
      assert ListOk(g, k);
    }
  }

  /** Room for more bytes leaves the bytes that were there. */
  lemma GrownBytes(d: Disk, k: nat, off: nat, n: nat, l: nat, x: nat)
    requires Valid(d) && InUse(d, k) && InUse(d, l) && x < d.inodes[l].length
    requires Need(d.inodes[k].length, off, n) > 0 ==> !NoFreeBlock(d)
    requires d.inodes[k].length / BLOCK + 1 < MAX_BLOCKS_IN_INODE
    ensures ByteAt(Grown(d, k, off, n), l, x) == ByteAt(d, l, x)
  {
  }

  /** Disk r is disk d with the bytes of `buf` at `off` of file k. */
  ghost predicate Patched(d: Disk, r: Disk, k: nat, off: nat, buf: seq<byte>)
    requires Valid(d) && InUse(d, k)
  {
    && Valid(r) && r.dir == d.dir && r.count == d.count && r.inodeMap == d.inodeMap && |r.inodes| == |d.inodes|
    && Formatted(r, k)
    && r.inodes[k].length == NewLength(d.inodes[k].length, off, |buf|)
    && (forall x :: 0 <= x < r.inodes[k].length && off <= x < off + |buf| ==> ByteAt(r, k, x) == buf[x - off])
    && (forall x :: 0 <= x < d.inodes[k].length && !(off <= x < off + |buf|) ==> ByteAt(r, k, x) == ByteAt(d, k, x))
    && (forall l :: InUse(d, l) && l != k ==> r.inodes[l] == d.inodes[l] && Content(r, l) == Content(d, l))
  }

  /** write_data on a fitting write.  It fails only for want of a block, and
      then nothing has changed.  Otherwise file k has the bytes of `buf` at
      `off`, every other byte of every file is as before, and the disk is
      valid. */
  lemma WriteMeaning(d: Disk, k: nat, off: nat, buf: seq<byte>)
    requires Valid(d) && InUse(d, k) && Formatted(d, k) && Addressable(off, |buf|)
    requires WriteFits(d.inodes[k].length, off, |buf|) && UndoInRange(d, k, off, |buf|)
    ensures var r := WriteData(d, k, off, buf);
            if Need(d.inodes[k].length, off, |buf|) == 1 && NoFreeBlock(d) then r == Outcome(d, -1)
            else r.value == |buf| && Patched(d, r.disk, k, off, buf)
  {
    hide NamesUnique, InodesUnique, BlocksUnique, ListOk, Formatted, ByteAt, Content, WriteData, Straight;
    var len, n := d.inodes[k].length, |buf|;
    WriteIsPoked(d, k, off, buf);
    if !(Need(len, off, n) == 1 && NoFreeBlock(d)) {
      var g := Grown(d, k, off, n);
      var r := Poked(g, k, off, buf);
      forall x | 0 <= x < NewLength(len, off, n)
        ensures off <= x < off + n ==> ByteAt(r, k, x) == buf[x - off]
        ensures x < len && !(off <= x < off + n) ==> ByteAt(r, k, x) == ByteAt(d, k, x)
      {
        PokedByte(g, k, off, buf, x);
        if x < len { GrownBytes(d, k, off, n, k, x); }
      }
      forall l | InUse(d, l) && l != k ensures r.inodes[l] == d.inodes[l] && Content(r, l) == Content(d, l) {
        PokedOther(g, k, off, buf, l);
        GrownContent(d, k, off, n, l);
      }
    }
  }

  lemma GrownContent(d: Disk, k: nat, off: nat, n: nat, l: nat)
    requires Valid(d) && InUse(d, k) && InUse(d, l) && l != k
    requires Need(d.inodes[k].length, off, n) > 0 ==> !NoFreeBlock(d)
    requires d.inodes[k].length / BLOCK + 1 < MAX_BLOCKS_IN_INODE
    ensures Content(Grown(d, k, off, n), l) == Content(d, l)
  {
    forall x | 0 <= x < d.inodes[l].length ensures ByteAt(Grown(d, k, off, n), l, x) == ByteAt(d, l, x) {
      GrownBytes(d, k, off, n, l, x);
    }
  }

  /** Appending at the end of a file concatenates. */
  lemma AppendMeaning(d: Disk, k: nat, buf: seq<byte>)
    requires Valid(d) && InUse(d, k) && Formatted(d, k) && Addressable(d.inodes[k].length, |buf|)
    requires WriteFits(d.inodes[k].length, d.inodes[k].length, |buf|)
    requires UndoInRange(d, k, d.inodes[k].length, |buf|)
    ensures var r := WriteData(d, k, d.inodes[k].length, buf);
            if r.value == -1 then r.disk == d
            else r.value == |buf| && Patched(d, r.disk, k, d.inodes[k].length, buf)
                 && Content(r.disk, k) == Content(d, k) + buf
  {
    hide WriteData, ByteAt, WriteFits, UndoInRange;
    WriteMeaning(d, k, d.inodes[k].length, buf);
  }
}
