/**
 Exactly which transfers the code gets right on every disk it can hold, with a
 disk on which any other goes wrong.
*/
module Limits {
  import opened DiskImage
  import opened Contents
  import opened Ownership
  import opened Writing
  import opened Claims

  // ---------------------------------------------------------------- one file

  function SampleName(): (f: NameField)
    ensures f[0] == 97
  {
    seq(MAX_FILENAME_LENGTH, i => if i == 0 then 97 else 0)
  }

  function SampleList(nb: nat): (idx: BlockList)
    ensures forall j :: 0 <= j < MAX_BLOCKS_IN_INODE ==> idx[j] == if j < nb then j + 1 else 0
  {
    seq(MAX_BLOCKS_IN_INODE, j requires 0 <= j => if j < nb then j + 1 else 0)
  }

  function SampleBlock(v: byte): (b: Block)
    ensures forall p :: 0 <= p < BLOCK ==> b[p] == v
  {
    seq(BLOCK, _ => v)
  }

  /** n blocks, of which block 2 is full of v and the others of zeros. */
  function SampleBlocks(v: byte, n: nat): (bs: seq<Block>)
    ensures |bs| == n
    ensures forall b :: 0 <= b < n ==> bs[b] == SampleBlock(if b == 2 then v else 0)
  {
    if n == 0 then [] else SampleBlocks(v, n - 1) + [SampleBlock(if n - 1 == 2 then v else 0)]
  }

  function SampleInode(k: nat, len: nat, nb: nat): Inode {
    if k == 1 then Inode(len, SampleList(nb)) else Inode(0, SampleList(0))
  }

  function SampleInodes(len: nat, nb: nat): (s: seq<Inode>)
    ensures |s| == MAX_INODES && forall k :: 0 <= k < MAX_INODES ==> s[k] == SampleInode(k, len, nb)
  {
    seq(MAX_INODES, k requires 0 <= k => SampleInode(k, len, nb))
  }

  function UpTo(last: nat, size: nat): (bits: seq<bool>)
    ensures |bits| == size && forall k :: 0 <= k < size ==> bits[k] == (k <= last)
  {
    seq(size, k => k <= last)
  }

  /** A disk with one file, inode 1, of length len, whose block list is 1, 2, ...
      nb. */
  function Sample(len: nat, nb: nat, v: byte): (d: Disk)
    ensures Shape(d) && d.count == 1 && d.dir[0] == Dentry(SampleName(), FS_TYPE_FILE, 1)
    ensures d.inodes == SampleInodes(len, nb) && d.blocks == SampleBlocks(v, MAX_DATA_BLOCKS)
    ensures d.dataMap == UpTo(nb, MAX_DATA_BLOCKS) && d.inodeMap == UpTo(1, MAX_INODES)
  {
    Disk(seq(NUM_DENTRIES, _ => Dentry(SampleName(), FS_TYPE_FILE, 1)), 1, SampleInodes(len, nb),
         SampleBlocks(v, MAX_DATA_BLOCKS), UpTo(nb, MAX_DATA_BLOCKS), UpTo(1, MAX_INODES))
  }

  lemma SampleValid(len: nat, nb: nat, v: byte)
    requires 1 <= nb < MAX_DATA_BLOCKS && len <= nb * BLOCK
    ensures Valid(Sample(len, nb, v)) && InUse(Sample(len, nb, v), 1)
    ensures nb == len / BLOCK + 1 ==> Formatted(Sample(len, nb, v), 1)
  {
    hide Sample;
    var d := Sample(len, nb, v);
    NamedFirstByte(SampleName());
    assert forall i, k :: Entry(d, i, k) <==> i == 0 && k == 1;
    assert Entry(d, 0, 1);
    assert forall k, j, b :: Owns(d, k, j, b) <==> k == 1 && 0 <= j < nb && b == j + 1;
    forall b | 1 <= b < MAX_DATA_BLOCKS ensures d.dataMap[b] <==> exists k, j :: Owns(d, k, j, b) {
      if b <= nb {
        assert Owns(d, 1, b - 1, b);
      }
    }
    forall k | 1 <= k < |d.inodes| ensures ListOk(d, k) {
    }
  }

  lemma SampleByte(len: nat, nb: nat, v: byte, x: nat)
    requires 1 <= nb < MAX_DATA_BLOCKS && x / BLOCK < nb
    ensures ByteAt(Sample(len, nb, v), 1, x) == if x / BLOCK == 1 then v else 0
  {
    hide Sample;
    var d := Sample(len, nb, v);
    assert d.inodes[1] == SampleInode(1, len, nb);
    assert d.blocks[x / BLOCK + 1] == SampleBlock(if x / BLOCK == 1 then v else 0);
  }

  // ---------------------------------------------------------------- reads

  /** The longest file there is room for. */
  const LONGEST: nat := (MAX_DATA_BLOCKS - 1) * BLOCK

  lemma AvailableBound(len: nat, off: nat, n: nat)
    requires off < len && Addressable(off, n)
    ensures var r := Available(len, off, n); r <= n && off + r <= len && Addressable(off, r)
  {
  }

  lemma SampleReadsWrong(len: nat, off: nat, n: nat)
    requires off < len <= LONGEST && Addressable(off, n) && !Straight(off, Available(len, off, n))
    ensures var d, r := Sample(len, MAX_DATA_BLOCKS - 1, 1), Available(len, off, n);
            ReadBytes(d, 1, off, n) != Content(d, 1)[off..off + r]
  {
    hide Sample, Straight, Moved, Available;
    var nb := MAX_DATA_BLOCKS - 1;
    var d, r := Sample(len, nb, 1), Available(len, off, n);
    var idx := SampleList(nb);
    assert d.inodes[1] == SampleInode(1, len, nb);
    AvailableBound(len, off, n);
    MovedAll(idx, |d.blocks|, off, r);
    CrookedCell(off, r);
    var i := BLOCK - off % BLOCK;
    SampleByte(len, nb, 1, off + i);
    assert d.blocks[2] == SampleBlock(1);
    assert ReadBytes(d, 1, off, n)[i] == 1;
    assert Content(d, 1)[off..off + r][i] == ByteAt(d, 1, off + i) == 0;
  }

  /** Reads of files of this length are slices on every valid disk if and only
      if the transfer is straight. */
  lemma ReadIsSliceIff(len: nat, off: nat, n: nat)
    requires off < len <= LONGEST && Addressable(off, n)
    ensures Straight(off, Available(len, off, n)) <==>
      forall d: Disk, k: nat :: Valid(d) && InUse(d, k) && d.inodes[k].length == len ==>
        ReadBytes(d, k, off, n) == Content(d, k)[off..off + Available(len, off, n)]
  {
    hide NamesUnique, InodesUnique, BlocksUnique, ListOk, Sample, Content, ReadBytes;
    if Straight(off, Available(len, off, n)) {
      forall d: Disk, k: nat | Valid(d) && InUse(d, k) && d.inodes[k].length == len
        ensures ReadBytes(d, k, off, n) == Content(d, k)[off..off + Available(len, off, n)]
      {
        ValidBacked(d, k);
        ReadIsSlice(d, k, off, n);
      }
    } else {
      SampleReadsWrong(len, off, n);
      SampleValid(len, MAX_DATA_BLOCKS - 1, 1);
    }
  }

  // ---------------------------------------------------------------- writes

  /** Byte j of a transfer goes to cell p of block b. */
  predicate Hits(idx: BlockList, off: nat, j: nat, b: nat, p: nat) {
    LoopBlock(off, j) < MAX_BLOCKS_IN_INODE && idx[LoopBlock(off, j)] == b && LoopPos(off, j) == p
  }

  /** A cell that every hit from m on sets to v ends up as v, if there is such a
      hit, or if m is 0 and it was v before. */
  lemma {:induction false} PokeCell(blocks: seq<Block>, idx: BlockList, off: nat, buf: seq<byte>, b: nat, p: nat, m: nat, v: byte)
    requires forall j :: 0 <= j < |buf| ==> Usable(idx, |blocks|, off, j)
    requires b < |blocks| && p < BLOCK
    requires forall j :: m <= j < |buf| && Hits(idx, off, j, b, p) ==> buf[j] == v
    ensures (exists j :: m <= j < |buf| && Hits(idx, off, j, b, p)) || (m == 0 && blocks[b][p] == v) ==>
      Poke(blocks, idx, off, buf)[b][p] == v
  {
    if buf != [] {
      hide LoopBlock, LoopPos, Poke;
      var n := |buf| - 1;
      PokeLast(blocks, idx, off, buf);
      PokeCell(blocks, idx, off, buf[..n], b, p, m, v);
    }
  }

  /** write_data has done what it promises: it has changed nothing for want of a
      block, or the file has all the bytes, every other byte is as before, the
      reserved block too, and the disk is valid. */
  ghost predicate Delivered(d: Disk, k: nat, off: nat, buf: seq<byte>)
    requires Valid(d) && InUse(d, k) && Addressable(off, |buf|) && UndoInRange(d, k, off, |buf|)
  {
    var r := WriteData(d, k, off, buf);
    || (Need(d.inodes[k].length, off, |buf|) > 0 && NoFreeBlock(d) && r == Outcome(d, -1))
    || (r.value == |buf| && Patched(d, r.disk, k, off, buf) && r.disk.blocks[0] == d.blocks[0])
  }

  /** A write that asks for at most one block, and may have it. */
  predicate Modest(len: nat, off: nat, n: nat) {
    var need := Need(len, off, n);
    len < LONGEST && Addressable(off, n) && need <= 1 && (need == 1 ==> len / BLOCK + 2 < MAX_DATA_BLOCKS)
  }

  lemma SampleGrown(len: nat, off: nat, n: nat)
    requires Modest(len, off, n)
    ensures var d, need := Sample(len, len / BLOCK + 1, 0), Need(len, off, n);
            && (need == 1 ==> !NoFreeBlock(d))
            && var g := Grown(d, 1, off, n);
            && g.inodes[1] == Inode(NewLength(len, off, n), SampleList(len / BLOCK + 1 + need)) && g.blocks == d.blocks
  {
    hide Sample;
    var nb := len / BLOCK + 1;
    var d, need := Sample(len, nb, 0), Need(len, off, n);
    assert d.inodes[1] == SampleInode(1, len, nb);
    if need == 1 {
      assert !UpTo(nb, MAX_DATA_BLOCKS)[nb + 1];
      assert FirstFree(d.dataMap, MAX_DATA_BLOCKS) == nb + 1;
      assert SampleList(nb)[nb := nb + 1] == SampleList(nb + 1);
    }
  }

  /** On the sample disk all its bytes are moved. */
  lemma SampleWrite(len: nat, off: nat, buf: seq<byte>)
    requires Modest(len, off, |buf|)
    ensures var d := Sample(len, len / BLOCK + 1, 0);
            && Valid(d) && InUse(d, 1) && Formatted(d, 1) && UndoInRange(d, 1, off, |buf|) && d.inodes[1].length == len
            && (Need(len, off, |buf|) == 1 ==> !NoFreeBlock(d))
            && var idx := SampleList(len / BLOCK + 1 + Need(len, off, |buf|));
            && (forall j :: 0 <= j < |buf| ==> Usable(idx, |d.blocks|, off, j))
            && var r := WriteData(d, 1, off, buf);
            && r.value == |buf| && r.disk.blocks == Poke(d.blocks, idx, off, buf)
            && r.disk.inodes[1] == Inode(NewLength(len, off, |buf|), idx)
  {
    hide Sample, Valid, Formatted, Poke, Grow, Grown, NoFreeBlock, Need, Moved;
    var nb, n := len / BLOCK + 1, |buf|;
    var d := Sample(len, nb, 0);
    SampleValid(len, nb, 0);
    assert d.inodes[1] == SampleInode(1, len, nb);
    UndoUnneeded(d, 1, off, n);
    GrowMeaning(d, 1, off, n);
    SampleGrown(len, off, n);
    var idx := SampleList(nb + Need(len, off, n));
    forall j | 0 <= j < n ensures Usable(idx, |d.blocks|, off, j) {
    }
    MovedAll(idx, |d.blocks|, off, n);
    assert buf[..n] == buf;
  }

  /** The byte that a crooked write puts into place 1 of the file. */
  function Unit(n: nat, i: nat): (buf: seq<byte>)
    ensures |buf| == n && forall j :: 0 <= j < n ==> buf[j] == if j == i then 1 else 0
  {
    seq(n, j => if j == i then 1 else 0)
  }

  /** Inside the file, the byte ends up in place 1, whatever was to be there. */
  lemma CrookedInside(len: nat, off: nat, n: nat)
    requires Modest(len, off, n) && !Straight(off, n) && off < len
    ensures var d, buf := Sample(len, len / BLOCK + 1, 0), Unit(n, BLOCK - off % BLOCK);
            && Valid(d) && InUse(d, 1) && UndoInRange(d, 1, off, n) && !Delivered(d, 1, off, buf)
  {
    hide Sample, Valid, Formatted, Poke, Straight, WriteData, UndoInRange, NoFreeBlock;
    var nb, i := len / BLOCK + 1, BLOCK - off % BLOCK;
    var d, buf := Sample(len, nb, 0), Unit(n, i);
    SampleWrite(len, off, buf);
    CrookedCell(off, n);
    var r := WriteData(d, 1, off, buf).disk;
    PokeCell(d.blocks, SampleList(nb), off, buf, 2, 0, i, 1);
    assert Hits(SampleList(nb), off, i, 2, 0);
    SampleByte(len, nb, 0, BLOCK);
    hide Unit, Hits, LoopBlock, LoopPos;
    Disturbed(d, off, buf);
  }

  /** A one in place 1 that is not from the buffer's byte for that place. */
  lemma Disturbed(d: Disk, off: nat, buf: seq<byte>)
    requires Valid(d) && InUse(d, 1) && Addressable(off, |buf|) && UndoInRange(d, 1, off, |buf|)
    requires BLOCK <= off < d.inodes[1].length && ByteAt(d, 1, BLOCK) == 0 && buf != [] && buf[0] == 0
    requires var r := WriteData(d, 1, off, buf).disk;
             && r.inodes[1].length == d.inodes[1].length && r.inodes[1].blocks[1] == 2 && 2 < |r.blocks| && r.blocks[2][0] == 1
    ensures !Delivered(d, 1, off, buf)
  {
    hide NamesUnique, InodesUnique, BlocksUnique, ListOk, WriteData, UndoInRange, NoFreeBlock, Formatted;
    assert ByteAt(WriteData(d, 1, off, buf).disk, 1, BLOCK) == 1;
  }

  /** Past the end, it does not end up where it belongs. */
  lemma CrookedAppend(len: nat, off: nat, n: nat)
    requires Modest(len, off, n) && !Straight(off, n) && off >= len
    ensures var d, buf := Sample(len, len / BLOCK + 1, 0), Unit(n, BLOCK - off % BLOCK);
            && Valid(d) && InUse(d, 1) && UndoInRange(d, 1, off, n) && !Delivered(d, 1, off, buf)
  {
    hide Sample, Valid, Formatted, Poke, Straight, WriteData, UndoInRange, NoFreeBlock;
    var i, place := BLOCK - off % BLOCK, off / BLOCK + 1;
    var d, buf := Sample(len, len / BLOCK + 1, 0), Unit(n, i);
    var idx := SampleList(len / BLOCK + 1 + Need(len, off, n));
    SampleWrite(len, off, buf);
    CrookedCell(off, n);
    assert d.blocks[place + 1] == SampleBlock(0);
    NoUnit(idx, off, n, place + 1);
    PokeCell(d.blocks, idx, off, buf, place + 1, 0, 0, 0);
    hide Unit, Hits, LoopBlock, LoopPos, Need;
    Misplaced(d, off, buf, idx, place);
  }

  /** A byte of the buffer that is not where it belongs. */
  lemma Misplaced(d: Disk, off: nat, buf: seq<byte>, idx: BlockList, place: nat)
    requires Valid(d) && InUse(d, 1) && Addressable(off, |buf|) && UndoInRange(d, 1, off, |buf|)
    requires Need(d.inodes[1].length, off, |buf|) > 0 ==> !NoFreeBlock(d)
    requires var r := WriteData(d, 1, off, buf).disk;
             && r.inodes[1].blocks == idx && r.inodes[1].length == off + |buf|
             && place < MAX_BLOCKS_IN_INODE && idx[place] < |r.blocks| && r.blocks[idx[place]][0] == 0
    requires off <= place * BLOCK < off + |buf| && buf[place * BLOCK - off] == 1
    ensures !Delivered(d, 1, off, buf)
  {
    hide NamesUnique, InodesUnique, BlocksUnique, ListOk, WriteData, UndoInRange, NoFreeBlock, Formatted;
    assert ByteAt(WriteData(d, 1, off, buf).disk, 1, place * BLOCK) == 0;
  }

  lemma NoUnit(idx: BlockList, off: nat, n: nat, b: nat)
    requires !Straight(off, n) && b == off / BLOCK + 2 && idx[1] == 2
    ensures forall j :: 0 <= j < n && Hits(idx, off, j, b, 0) ==> Unit(n, BLOCK - off % BLOCK)[j] == 0
  {
    CrookedCell(off, n);
  }

  /** A write that starts inside the file and runs past the counted blocks puts
      the rest into the reserved block 0, and reports all of it as written. */
  lemma OverrunWrite(len: nat, off: nat, n: nat)
    requires Modest(len, off, n) && off < len && Straight(off, n) && off + n > (len / BLOCK + 1) * BLOCK
    ensures var d, buf := Sample(len, len / BLOCK + 1, 0), SampleBytes(n);
            && Valid(d) && InUse(d, 1) && UndoInRange(d, 1, off, n) && !Delivered(d, 1, off, buf)
            && WriteData(d, 1, off, buf).value == n && WriteData(d, 1, off, buf).disk.blocks[0] != d.blocks[0]
  {
    hide Sample, Valid, Formatted, Poke, WriteData, UndoInRange, NoFreeBlock, Patched;
    var nb := len / BLOCK + 1;
    var d, buf, idx := Sample(len, nb, 0), SampleBytes(n), SampleList(nb);
    SampleWrite(len, off, buf);
    assert d.blocks[0] == SampleBlock(0);
    assert Hits(idx, off, nb * BLOCK - off, 0, 0);
    PokeCell(d.blocks, idx, off, buf, 0, 0, nb * BLOCK - off, 1);
  }

  function SampleBytes(n: nat): (buf: seq<byte>)
    ensures |buf| == n && forall j :: 0 <= j < n ==> buf[j] == 1
  {
    seq(n, _ => 1)
  }

  lemma {:induction false} FreeAbove(bits: seq<bool>, last: nat)
    requires forall k :: 0 <= k < |bits| ==> bits[k] == (k < last)
    ensures FreeCount(bits) == if last >= |bits| then 0 else |bits| - last
  {
    if bits != [] {
      FreeAbove(bits[1..], if last == 0 then 0 else last - 1);
    }
  }

  /** A write that asks for several blocks, on the sample disk. */
  lemma GreedyWrite(len: nat, off: nat, n: nat)
    requires len / BLOCK + 2 < MAX_DATA_BLOCKS && Addressable(off, n) && Need(len, off, n) >= 2
    requires Need(len, off, n) <= len / BLOCK + 1 || Need(len, off, n) + len / BLOCK + 1 < MAX_DATA_BLOCKS
    ensures var d, buf := Sample(len, len / BLOCK + 1, 0), SampleBytes(n);
            && Valid(d) && InUse(d, 1) && Formatted(d, 1) && UndoInRange(d, 1, off, n) && !Delivered(d, 1, off, buf)
  {
    hide Sample, NamesUnique, InodesUnique, BlocksUnique, Formatted, WriteData, BitmapsAgree;
    var nb := len / BLOCK + 1;
    var d, buf := Sample(len, nb, 0), SampleBytes(n);
    SampleValid(len, nb, 0);
    assert d.inodes[1] == SampleInode(1, len, nb);
    assert ListOk(d, 1);
    DiffIsNeed(len, off, n);
    FreeAbove(d.dataMap, nb + 1);
    assert !UpTo(nb, MAX_DATA_BLOCKS)[nb + 1];
    BitmapsAgreeIff(d, 1, off, buf);
    if Valid(WriteData(d, 1, off, buf).disk) {
      ValidAgrees(WriteData(d, 1, off, buf).disk);
    }
  }

  /** A write that no valid disk has a block for fails cleanly on all of them. */
  predicate Hopeless(len: nat, off: nat, n: nat) {
    Need(len, off, n) > 0 && len / BLOCK + 2 == MAX_DATA_BLOCKS
  }

  /** A file of 58 blocks leaves none free. */
  lemma NoBlockLeft(d: Disk, k: nat)
    requires Valid(d) && InUse(d, k) && Formatted(d, k) && d.inodes[k].length / BLOCK + 2 == MAX_DATA_BLOCKS
    ensures NoFreeBlock(d)
  {
    var s, b := d.inodes[k].blocks[..MAX_DATA_BLOCKS - 1], FirstFree(d.dataMap, MAX_DATA_BLOCKS);
    assert ListOk(d, k);
    if b < MAX_DATA_BLOCKS {
      var t := seq(|s|, j requires 0 <= j < |s| => if s[j] > b then s[j] - 1 else s[j]);
      forall j | 0 <= j < |s| ensures s[j] != b {
        assert Owns(d, k, j, s[j]);
      }
      forall j, l | 0 <= j < l < |s| ensures t[j] != t[l] {
        assert Owns(d, k, j, s[j]) && Owns(d, k, l, s[l]);
      }
      Pigeons(t, MAX_DATA_BLOCKS - 2);
    }
  }

  lemma HopelessFails(d: Disk, k: nat, off: nat, buf: seq<byte>)
    requires Valid(d) && InUse(d, k) && Formatted(d, k) && Addressable(off, |buf|) && UndoInRange(d, k, off, |buf|)
    requires Hopeless(d.inodes[k].length, off, |buf|)
    ensures Delivered(d, k, off, buf)
  {
    hide NamesUnique, InodesUnique, BlocksUnique, ListOk, Formatted, NoFreeBlock, Claim;
    var len := d.inodes[k].length;
    NoBlockLeft(d, k);
    DiffIsNeed(len, off, |buf|);
    NothingClaimed(d, k, len / BLOCK + 1, Need(len, off, |buf|));
  }

  lemma FittingDelivers(d: Disk, k: nat, off: nat, buf: seq<byte>)
    requires Valid(d) && InUse(d, k) && Formatted(d, k) && Addressable(off, |buf|) && UndoInRange(d, k, off, |buf|)
    requires WriteFits(d.inodes[k].length, off, |buf|)
    ensures Delivered(d, k, off, buf)
  {
    hide NamesUnique, InodesUnique, BlocksUnique, ListOk, Formatted, NoFreeBlock, Patched, WriteData, WriteFits, Poke, UndoInRange;
    WriteMeaning(d, k, off, buf);
    WriteIsPoked(d, k, off, buf);
    if !(Need(d.inodes[k].length, off, |buf|) == 1 && NoFreeBlock(d)) {
      FitsStraight(d.inodes[k].length, off, |buf|);
      ReservedKept(Grown(d, k, off, |buf|), k, off, buf);
    }
  }

  lemma FitsStraight(len: nat, off: nat, n: nat)
    ensures WriteFits(len, off, n) ==> Straight(off, n) && Need(len, off, n) <= 1
  {
  }

  /** Block 0 is in no list, so no fitting write touches it. */
  lemma ReservedKept(d: Disk, k: nat, off: nat, buf: seq<byte>)
    requires Valid(d) && InUse(d, k) && Formatted(d, k) && Straight(off, |buf|)
    requires off + |buf| <= (d.inodes[k].length / BLOCK + 1) * BLOCK
    ensures Poked(d, k, off, buf).blocks[0] == d.blocks[0]
  {
    hide NamesUnique, InodesUnique, BlocksUnique, ListOk, Formatted, Poke;
    var idx := d.inodes[k].blocks;
    forall i | 0 <= i < |buf| ensures Usable(idx, |d.blocks|, off, i) && idx[LoopBlock(off, i)] != 0 {
      TargetOwned(d, k, off, |buf|, i);
    }
    PokeFrame(d.blocks, idx, off, buf, 0);
  }

  /** write_data delivers on every valid disk with a file of this length, laid
      out by the kernel, if and only if the write fits, or no such disk has a
      block for it.  (Other calls are left out only if on every disk they would
      undo more claims than the file has blocks.) */
  lemma WriteDeliversIff(len: nat, off: nat, n: nat)
    requires len < LONGEST && Addressable(off, n)
    requires Need(len, off, n) <= len / BLOCK + 1 || Need(len, off, n) + len / BLOCK + 1 < MAX_DATA_BLOCKS
    ensures WriteFits(len, off, n) || Hopeless(len, off, n) <==>
      forall d: Disk, k: nat, buf: seq<byte> ::
        Valid(d) && InUse(d, k) && Formatted(d, k) && d.inodes[k].length == len && |buf| == n && UndoInRange(d, k, off, n) ==>
        Delivered(d, k, off, buf)
  {
    hide NamesUnique, InodesUnique, BlocksUnique, ListOk, Formatted, UndoInRange, Sample, Delivered, WriteData;
    if WriteFits(len, off, n) || Hopeless(len, off, n) {
      forall d: Disk, k: nat, buf: seq<byte> |
        Valid(d) && InUse(d, k) && Formatted(d, k) && d.inodes[k].length == len && |buf| == n && UndoInRange(d, k, off, n)
        ensures Delivered(d, k, off, buf)
      {
        if WriteFits(len, off, n) {
          FittingDelivers(d, k, off, buf);
        } else {
          HopelessFails(d, k, off, buf);
        }
      }
    } else {
      SampleValid(len, len / BLOCK + 1, 0);
      assert Sample(len, len / BLOCK + 1, 0).inodes[1] == SampleInode(1, len, len / BLOCK + 1);
      if Need(len, off, n) >= 2 {
        GreedyWrite(len, off, n);
      } else if Straight(off, n) {
        OverrunWrite(len, off, n);
      } else if off < len {
        CrookedInside(len, off, n);
      } else {
        CrookedAppend(len, off, n);
      }
    }
  }
}
