/**
 Growing writes that ask for several blocks.  write_data stores all of them in
 one slot and undoes claims by the slots before it, so the bitmap stays what a
 mount would compute exactly when at most one block is asked for, or none is
 free to begin with.
*/
module Claims {
  import opened DiskImage
  import opened Contents
  import opened Ownership
  import opened Writing

  /** Slots other than the claimed one keep their block. */
  ghost predicate OneSlot(d: Disk, r: Disk, k: nat, slot: nat)
    requires k < |d.inodes| && k < |r.inodes|
  {
    forall j :: 0 <= j < MAX_BLOCKS_IN_INODE && j != slot ==> r.inodes[k].blocks[j] == d.inodes[k].blocks[j]
  }

  /** Successful claims keep every mark, and the slot ends up with a block that
      was free. */
  lemma {:induction false} ClaimMarks(d: Disk, k: nat, curr: nat, need: nat, done: nat)
    requires CanClaim(d, k, curr, need, done) && Claim(d, k, curr, need, done).ok
    ensures var r := Claim(d, k, curr, need, done).disk;
            && OneSlot(d, r, k, curr)
            && (forall b :: 0 <= b < MAX_DATA_BLOCKS && d.dataMap[b] ==> r.dataMap[b])
            && (done < need ==> r.inodes[k].blocks[curr] < MAX_DATA_BLOCKS && !d.dataMap[r.inodes[k].blocks[curr]])
    decreases need - done
  {
    hide Rollback, FreeCount;
    if done < need {
      var b := FirstFree(d.dataMap, MAX_DATA_BLOCKS);
      if b < MAX_DATA_BLOCKS {
        OneFewer(d.dataMap, b);
        ClaimMarks(SetBlock(SetData(d, b, true), k, curr, b), k, curr, need, done + 1);
      }
    }
  }

  lemma {:induction false} RollbackClears(d: Disk, k: nat, curr: nat, n: nat)
    requires CanClaim(d, k, curr, n, n) && 1 <= n <= curr
    ensures !Rollback(d, k, curr, n).dataMap[d.inodes[k].blocks[curr - 1]]
    decreases n
  {
    if n > 1 {
      RollbackClears(SetData(d, d.inodes[k].blocks[curr - n], false), k, curr, n - 1);
    }
  }

  /** The undo loop unmarks the blocks in the n slots before `curr`, the file's
      own, and no other. */
  lemma {:induction false} RollbackUnmarks(d: Disk, k: nat, curr: nat, n: nat)
    requires Shape(d) && k < |d.inodes| && n <= curr <= MAX_BLOCKS_IN_INODE
    requires forall j :: 0 <= j < MAX_BLOCKS_IN_INODE ==> d.inodes[k].blocks[j] < MAX_DATA_BLOCKS
    ensures forall b :: 0 <= b < MAX_DATA_BLOCKS ==>
      (Rollback(d, k, curr, n).dataMap[b] <==> d.dataMap[b] && b !in d.inodes[k].blocks[curr - n..curr])
    decreases n
  {
    if n > 0 {
      var blocks := d.inodes[k].blocks;
      RollbackUnmarks(SetData(d, blocks[curr - n], false), k, curr, n - 1);
      assert blocks[curr - n..curr] == [blocks[curr - n]] + blocks[curr - n + 1..curr];
    }
  }

  /** Claims that succeed take exactly as many free blocks as were asked for. */
  lemma {:induction false} ClaimCounts(d: Disk, k: nat, curr: nat, need: nat, done: nat)
    requires CanClaim(d, k, curr, need, done) && Claim(d, k, curr, need, done).ok
    ensures FreeCount(Claim(d, k, curr, need, done).disk.dataMap) == FreeCount(d.dataMap) - (need - done)
    decreases need - done
  {
    hide FreeCount, Rollback;
    if done < need {
      var b := FirstFree(d.dataMap, MAX_DATA_BLOCKS);
      OneFewer(d.dataMap, b);
      ClaimCounts(SetBlock(SetData(d, b, true), k, curr, b), k, curr, need, done + 1);
    }
  }

  /** Claims that fail after the first one unmark the file's own last block. */
  lemma {:induction false} ClaimUnmarks(d: Disk, k: nat, curr: nat, need: nat, done: nat)
    requires CanClaim(d, k, curr, need, done) && 1 <= done && 1 <= curr && !Claim(d, k, curr, need, done).ok
    ensures var r := Claim(d, k, curr, need, done).disk;
            OneSlot(d, r, k, curr) && !r.dataMap[d.inodes[k].blocks[curr - 1]]
    decreases need - done
  {
    var b := FirstFree(d.dataMap, MAX_DATA_BLOCKS);
    if b < MAX_DATA_BLOCKS {
      OneFewer(d.dataMap, b);
      ClaimUnmarks(SetBlock(SetData(d, b, true), k, curr, b), k, curr, need, done + 1);
    } else {
      NoneFree(d.dataMap);
      RollbackClears(d, k, curr, done);
    }
  }

  function AfterFirst(d: Disk, k: nat): (r: Disk)
    requires Valid(d) && InUse(d, k) && Formatted(d, k) && !NoFreeBlock(d)
    requires d.inodes[k].length / BLOCK + 1 < MAX_BLOCKS_IN_INODE
  {
    var first := FirstFree(d.dataMap, MAX_DATA_BLOCKS);
    SetBlock(SetData(d, first, true), k, d.inodes[k].length / BLOCK + 1, first)
  }

  /** Of several claimed blocks the slot holds the last; the first is marked, and
      neither it nor any other new mark but the last is in a list. */
  lemma FirstClaimLeaks(d: Disk, k: nat, r: Disk)
    requires Valid(d) && InUse(d, k) && Formatted(d, k) && !NoFreeBlock(d)
    requires d.inodes[k].length / BLOCK + 1 < MAX_BLOCKS_IN_INODE
    requires Shape(r) && OnlyClaims(d, r, k) && OneSlot(AfterFirst(d, k), r, k, d.inodes[k].length / BLOCK + 1)
    requires forall b :: 0 <= b < MAX_DATA_BLOCKS && AfterFirst(d, k).dataMap[b] ==> r.dataMap[b]
    requires var b := r.inodes[k].blocks[d.inodes[k].length / BLOCK + 1];
             b < MAX_DATA_BLOCKS && !AfterFirst(d, k).dataMap[b]
    ensures var first, last := FirstFree(d.dataMap, MAX_DATA_BLOCKS), r.inodes[k].blocks[d.inodes[k].length / BLOCK + 1];
            && r.dataMap[first] && first != last
            && forall b :: 0 <= b < MAX_DATA_BLOCKS && !d.dataMap[b] && b != last ==> !ScanData(r, b)
    ensures !BitmapsAgree(r)
  {
    var first, last := FirstFree(d.dataMap, MAX_DATA_BLOCKS), r.inodes[k].blocks[d.inodes[k].length / BLOCK + 1];
    assert r.dataMap[first] && !d.dataMap[first] && first != last;
    forall b | 0 <= b < MAX_DATA_BLOCKS && !d.dataMap[b] && b != last ensures !ScanData(r, b) {
      forall i, j | 0 <= i < d.count && 0 <= j && Scanned(r, i) && d.dir[i].inode < |d.inodes|
        ensures !ListedIn(r.inodes[d.dir[i].inode].blocks, j, b)
      {
        assert !Owns(d, d.dir[i].inode, j, b);
      }
    }
  }

  /** After a failed second claim the file's last block is listed, not marked. */
  lemma LastBlockLost(d: Disk, k: nat, r: Disk)
    requires Valid(d) && InUse(d, k) && Formatted(d, k) && !NoFreeBlock(d)
    requires d.inodes[k].length / BLOCK + 1 < MAX_BLOCKS_IN_INODE
    requires Shape(r) && OnlyClaims(d, r, k) && OneSlot(AfterFirst(d, k), r, k, d.inodes[k].length / BLOCK + 1)
    requires ListOk(d, k) && !r.dataMap[d.inodes[k].blocks[d.inodes[k].length / BLOCK]]
    ensures !BitmapsAgree(r)
  {
    var curr := d.inodes[k].length / BLOCK + 1;
    var last := d.inodes[k].blocks[curr - 1];
    assert ListedIn(r.inodes[k].blocks, curr - 1, last);
    var i :| Entry(d, i, k);
    NamedFirstByte(d.dir[i].name);
    assert Scanned(r, i) && r.dir[i].inode == k;
    assert EntryLists(r, i, last);
    assert ScanData(r, last);
  }

  lemma FirstClaim(d: Disk, k: nat, need: nat)
    requires Valid(d) && InUse(d, k) && Formatted(d, k) && need >= 2 && !NoFreeBlock(d)
    requires CanClaim(d, k, d.inodes[k].length / BLOCK + 1, need, 0)
    ensures CanClaim(AfterFirst(d, k), k, d.inodes[k].length / BLOCK + 1, need, 1)
    ensures Claim(d, k, d.inodes[k].length / BLOCK + 1, need, 0)
         == Claim(AfterFirst(d, k), k, d.inodes[k].length / BLOCK + 1, need, 1)
    ensures Shape(AfterFirst(d, k)) && OnlyClaims(d, AfterFirst(d, k), k)
    ensures OneSlot(d, AfterFirst(d, k), k, d.inodes[k].length / BLOCK + 1)
  {
    hide NamesUnique, InodesUnique, BlocksUnique, ListOk, Formatted, FreeCount;
    OneFewer(d.dataMap, FirstFree(d.dataMap, MAX_DATA_BLOCKS));
  }

  lemma SeveralClaimsDisagree(d: Disk, k: nat, need: nat)
    requires Valid(d) && InUse(d, k) && Formatted(d, k) && need >= 2 && !NoFreeBlock(d)
    requires CanClaim(d, k, d.inodes[k].length / BLOCK + 1, need, 0)
    ensures !BitmapsAgree(Claim(d, k, d.inodes[k].length / BLOCK + 1, need, 0).disk)
  {
    hide NamesUnique, InodesUnique, BlocksUnique, BitmapsAgree, Formatted, Claim;
    assert ListOk(d, k);
    var curr := d.inodes[k].length / BLOCK + 1;
    var d1 := AfterFirst(d, k);
    var c := Claim(d, k, curr, need, 0);
    FirstClaim(d, k, need);
    if c.ok {
      ClaimMarks(d1, k, curr, need, 1);
      FirstClaimLeaks(d, k, c.disk);
    } else {
      ClaimUnmarks(d1, k, curr, need, 1);
      LastBlockLost(d, k, c.disk);
    }
  }

  lemma AgreeIgnoresData(d: Disk, r: Disk)
    requires Shape(d) && Shape(r) && r == d.(blocks := r.blocks)
    ensures BitmapsAgree(d) <==> BitmapsAgree(r)
  {
    assert forall i :: 0 <= i ==> (Scanned(r, i) <==> Scanned(d, i));
    assert forall i, b :: 0 <= i && 0 <= b ==> (EntryLists(r, i, b) <==> EntryLists(d, i, b));
    assert forall k :: 0 <= k ==> (ScanInode(r, k) <==> ScanInode(d, k));
    assert forall b :: 0 <= b ==> (ScanData(r, b) <==> ScanData(d, b));
  }

  /** A write at or past the end of a file leaves bitmaps that a mount would
      reproduce if and only if it asks for at most one new block, or no block
      is free. */
  lemma BitmapsAgreeIff(d: Disk, k: nat, off: nat, buf: seq<byte>)
    requires Valid(d) && InUse(d, k) && Formatted(d, k) && Addressable(off, |buf|)
    requires UndoInRange(d, k, off, |buf|) && off >= d.inodes[k].length
    ensures BitmapsAgree(WriteData(d, k, off, buf).disk)
       <==> Need(d.inodes[k].length, off, |buf|) <= 1 || NoFreeBlock(d)
  {
    hide NamesUnique, InodesUnique, BlocksUnique, BitmapsAgree, Formatted, Moved, Claim;
    var len, need := d.inodes[k].length, Need(d.inodes[k].length, off, |buf|);
    BlocksBounded(d, k);
    assert ListOk(d, k);
    DiffIsNeed(len, off, |buf|);
    var g := Grow(d, k, off, |buf|).disk;
    AgreeIgnoresData(g, WriteData(d, k, off, buf).disk);
    if need <= 1 {
      GrowMeaning(d, k, off, |buf|);
      if need == 0 || !NoFreeBlock(d) {
        GrownValid(d, k, off, |buf|);
      }
      ValidAgrees(g);
    } else if NoFreeBlock(d) {
      NothingClaimed(d, k, len / BLOCK + 1, need);
      ValidAgrees(d);
    } else {
      SeveralClaimsDisagree(d, k, need);
      LengthIgnored(Claim(d, k, len / BLOCK + 1, need, 0).disk, k, off + |buf|);
    }
  }

  lemma NothingClaimed(d: Disk, k: nat, curr: nat, need: nat)
    requires CanClaim(d, k, curr, need, 0) && need > 0 && NoFreeBlock(d)
    ensures Claim(d, k, curr, need, 0) == Claimed(false, d)
  {
  }

  lemma LengthIgnored(d: Disk, k: nat, len: nat)
    requires Shape(d) && k < |d.inodes|
    ensures BitmapsAgree(d) <==> BitmapsAgree(SetLength(d, k, len))
  {
    var r := SetLength(d, k, len);
    assert forall l :: 0 <= l < |d.inodes| ==> r.inodes[l].blocks == d.inodes[l].blocks;
    assert forall i :: 0 <= i ==> (Scanned(r, i) <==> Scanned(d, i));
    assert forall i, b :: 0 <= i && 0 <= b ==> (EntryLists(r, i, b) <==> EntryLists(d, i, b));
    assert forall k :: 0 <= k ==> (ScanInode(r, k) <==> ScanInode(d, k));
    assert forall b :: 0 <= b ==> (ScanData(r, b) <==> ScanData(d, b));
  }

  /** The kernel counts length / 4096 + 1 blocks for every file, but a file from
      the image may have no block beyond its last full one, or none at all if it
      is empty.  An append inside the counted blocks always reports success; it
      keeps the disk valid if and only if the last of them is there. */
  lemma TightFileAppend(d: Disk, k: nat, buf: seq<byte>)
    requires Valid(d) && InUse(d, k) && buf != []
    requires Addressable(d.inodes[k].length, |buf|) && UndoInRange(d, k, d.inodes[k].length, |buf|)
    requires Need(d.inodes[k].length, d.inodes[k].length, |buf|) == 0
    ensures var r := WriteData(d, k, d.inodes[k].length, buf);
            && r.value == |buf|
            && (Valid(r.disk) <==> d.inodes[k].blocks[d.inodes[k].length / BLOCK] != 0)
  {
    hide NamesUnique, InodesUnique, BlocksUnique, Poke;
    var i := d.inodes[k];
    LengthBounded(d, k);
    assert ListOk(d, k);
    DiffIsNeed(i.length, i.length, |buf|);
    var g := SetLength(d, k, i.length + |buf|);
    assert Grow(d, k, i.length, |buf|) == Claimed(true, g);
    forall x | 0 <= x < |buf| ensures Usable(i.blocks, |g.blocks|, i.length, x) {
    }
    MovedAll(i.blocks, |g.blocks|, i.length, |buf|);
    var r := WriteData(d, k, i.length, buf).disk;
    if i.blocks[i.length / BLOCK] == 0 {
      assert !ListOk(r, k) by {
        assert (i.length / BLOCK) * BLOCK < r.inodes[k].length && r.inodes[k].blocks[i.length / BLOCK] == 0;
      }
    } else {
      LengthKeepsValid(d, k, i.length + |buf|);
      PokedValid(g, r);
    }
  }

  /** A longer length inside the blocks there are. */
  lemma LengthKeepsValid(d: Disk, k: nat, len: nat)
    requires Valid(d) && InUse(d, k) && len <= MAX_BLOCKS_IN_INODE * BLOCK
    requires forall j :: 0 <= j < MAX_BLOCKS_IN_INODE && j * BLOCK < len ==> d.inodes[k].blocks[j] != 0
    ensures Valid(SetLength(d, k, len))
  {
    var g := SetLength(d, k, len);
    LengthOwns(d, k, len);
    assert forall i, c :: Entry(g, i, c) <==> Entry(d, i, c);
    forall c | 1 <= c < MAX_INODES ensures g.inodeMap[c] <==> exists i :: Entry(g, i, c) {
      if g.inodeMap[c] {
        var i :| Entry(d, i, c);
        assert Entry(g, i, c);
      }
    }
    forall l | 1 <= l < |g.inodes| ensures ListOk(g, l) {
      assert ListOk(d, l);
    }
  }

  // ---------------------------------------------------------------- every run

  datatype FileOp = Create(name: seq<byte>) | Write(inode: nat, off: nat, buf: seq<byte>)

  /** Inode k was not a badly laid out file of the disk the run started from. */
  ghost predicate Eligible(start: Disk, k: nat)
    requires Shape(start)
  {
    InUse(start, k) ==> Formatted(start, k)
  }

  /** Every eligible file, created in the run or not, is laid out as the kernel
      lays files out, and no file has gone. */
  ghost predicate LaidOut(start: Disk, d: Disk)
    requires Shape(start) && Shape(d)
  {
    && |d.inodes| == |start.inodes|
    && (forall k :: InUse(d, k) && Eligible(start, k) ==> Formatted(d, k))
    && (forall k :: InUse(start, k) ==> InUse(d, k))
  }

  /** Creating a file under a new name, or a write that asks for at most one
      block, to any file but a badly laid out one of the start. */
  ghost predicate Allowed(start: Disk, d: Disk, op: FileOp)
    requires Shape(start) && Shape(d)
  {
    match op
    case Create(name) => LegalName(name) && Lookup(d, name) == d.count
    case Write(k, off, buf) =>
      && InUse(d, k) && Eligible(start, k) && Addressable(off, |buf|) && Need(d.inodes[k].length, off, |buf|) <= 1
  }

  ghost function Apply(start: Disk, d: Disk, op: FileOp): (r: Disk)
    requires Shape(start) && Valid(d) && LaidOut(start, d) && Allowed(start, d, op)
    ensures Valid(r) && LaidOut(start, r)
  {
    match op
    case Create(name) =>
      CreateLaidOut(start, d, name);
      CreateFile(d, name).disk
    case Write(k, off, buf) =>
      UndoUnneeded(d, k, off, |buf|);
      WriteLaidOut(start, d, k, off, buf);
      WriteData(d, k, off, buf).disk
  }

  lemma CreateLaidOut(start: Disk, d: Disk, name: seq<byte>)
    requires Shape(start) && Valid(d) && LaidOut(start, d) && Allowed(start, d, Create(name))
    ensures Valid(CreateFile(d, name).disk) && LaidOut(start, CreateFile(d, name).disk)
  {
    hide NamesUnique, InodesUnique, BlocksUnique, ListOk, Lookup;
    CreateKeepsValid(d, name);
  }

  lemma WriteKeepsValid(d: Disk, k: nat, off: nat, buf: seq<byte>)
    requires Valid(d) && InUse(d, k) && Formatted(d, k) && Addressable(off, |buf|)
    requires Need(d.inodes[k].length, off, |buf|) <= 1 && UndoInRange(d, k, off, |buf|)
    ensures Valid(WriteData(d, k, off, buf).disk) && Formatted(WriteData(d, k, off, buf).disk, k)
  {
    hide NamesUnique, InodesUnique, BlocksUnique, ListOk, Moved, Poke;
    GrowMeaning(d, k, off, |buf|);
    var g := Grow(d, k, off, |buf|).disk;
    if Grow(d, k, off, |buf|).ok { GrownValid(d, k, off, |buf|); }
    PokedValid(g, WriteData(d, k, off, buf).disk);
  }

  lemma WriteLaidOut(start: Disk, d: Disk, k: nat, off: nat, buf: seq<byte>)
    requires Shape(start) && Valid(d) && LaidOut(start, d) && Allowed(start, d, Write(k, off, buf))
    requires UndoInRange(d, k, off, |buf|)
    ensures Valid(WriteData(d, k, off, buf).disk) && LaidOut(start, WriteData(d, k, off, buf).disk)
  {
    hide NamesUnique, InodesUnique, BlocksUnique, ListOk, Moved, Poke, Grow;
    WriteKeepsValid(d, k, off, buf);
    assert OnlyClaims(d, Grow(d, k, off, |buf|).disk, k);
  }

  ghost predicate AllowedRun(start: Disk, d: Disk, ops: seq<FileOp>)
    requires Shape(start) && Valid(d) && LaidOut(start, d)
    decreases |ops|
  {
    ops != [] ==> Allowed(start, d, ops[0]) && AllowedRun(start, Apply(start, d, ops[0]), ops[1..])
  }

  ghost function ApplyAll(start: Disk, d: Disk, ops: seq<FileOp>): (r: Disk)
    requires Shape(start) && Valid(d) && LaidOut(start, d) && AllowedRun(start, d, ops)
    ensures Valid(r) && LaidOut(start, r)
    decreases |ops|
  {
    if ops == [] then d else ApplyAll(start, Apply(start, d, ops[0]), ops[1..])
  }

  /** After any such run, failures included, names are unique, no block has two
      owners, every file created in the run or well laid out at its start has
      exactly length / 4096 + 1 blocks, and mounting again would rebuild the
      very same bitmaps. */
  lemma BitmapsAreACache(d: Disk, ops: seq<FileOp>)
    requires Valid(d) && AllowedRun(d, d, ops)
    ensures var r := ApplyAll(d, d, ops);
            && Valid(r) && BitmapsAgree(r)
            && (forall k :: InUse(d, k) ==> InUse(r, k))
            && (forall k :: InUse(r, k) && (InUse(d, k) ==> Formatted(d, k)) ==> Formatted(r, k))
  {
    ValidAgrees(ApplyAll(d, d, ops));
  }
}
