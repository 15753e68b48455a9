/**
 The file system as a value: directory, inodes, data blocks and the two
 allocation bitmaps, with what every file-system call computes on it.  Bytes
 move one at a time here; `FileSystem` moves whole blocks.
*/
module DiskImage {

  const BLOCK: nat := 4096
  const MAX_BLOCKS_IN_INODE: nat := 1023
  const MAX_FILENAME_LENGTH: nat := 32
  const NUM_DENTRIES: nat := 63
  const MAX_INODES: nat := 64
  const MAX_DATA_BLOCKS: nat := 59
  const FS_TYPE_FILE: nat := 2

  type byte = b: int | 0 <= b < 256
  type Block = s: seq<byte> | |s| == BLOCK witness seq(BLOCK, _ => 0)
  type BlockList = s: seq<nat> | |s| == MAX_BLOCKS_IN_INODE witness seq(MAX_BLOCKS_IN_INODE, _ => 0)
  type NameField = s: seq<byte> | |s| == MAX_FILENAME_LENGTH witness seq(MAX_FILENAME_LENGTH, _ => 0)

  datatype Inode = Inode(length: nat, blocks: BlockList)
  datatype Dentry = Dentry(name: NameField, kind: nat, inode: nat)
  datatype Disk = Disk(dir: seq<Dentry>, count: nat, inodes: seq<Inode>, blocks: seq<Block>,
                       dataMap: seq<bool>, inodeMap: seq<bool>)

  /** A disk after a call, and what the call returned. */
  datatype Outcome = Outcome(disk: Disk, value: int)
  datatype Claimed = Claimed(ok: bool, disk: Disk)

  predicate Shape(d: Disk) {
    && |d.dir| == NUM_DENTRIES && d.count <= NUM_DENTRIES
    && MAX_DATA_BLOCKS <= |d.inodes| <= MAX_INODES && |d.inodeMap| == MAX_INODES
    && MAX_DATA_BLOCKS <= |d.blocks| && |d.dataMap| == MAX_DATA_BLOCKS
  }

  function Min(a: nat, b: nat): nat {
    if a < b then a else b
  }

  // ---------------------------------------------------------------- inodes

  /** Where read_data and write_data find inode k of an image at `base`: inodes
      are as big as blocks. */
  function InodeAddress(base: int, k: nat): int {
    base + (k + 1) * BLOCK
  }

  /** Where get_inode_by_idx finds it. */
  function AddressByIndex(base: int, k: nat): int {
    base + k + 0x1000
  }

  /** They agree for the reserved inode 0 and for no other. */
  lemma InodeAddressesAgreeIff(base: int, k: nat)
    ensures AddressByIndex(base, k) == InodeAddress(base, k) <==> k == 0
  {
  }

  lemma InodeAddressesApart(base: int, k: nat)
    requires 0 < k < BLOCK
    ensures forall l: nat :: AddressByIndex(base, k) != InodeAddress(base, l)
  {
  }

  // ---------------------------------------------------------------- transfers

  /** The block of the file, and the position in it, that the transfer loops
      use for byte i of a transfer at `off`.  After the first block the loops
      go on with block 1 of the file, wherever they started. */
  function LoopBlock(off: nat, i: nat): nat {
    if off % BLOCK + i < BLOCK then off / BLOCK else (off % BLOCK + i) / BLOCK
  }

  function LoopPos(off: nat, i: nat): nat {
    (off % BLOCK + i) % BLOCK
  }

  /** Byte i of a transfer has a block list entry, and a block. */
  predicate Usable(idx: BlockList, limit: nat, off: nat, i: nat) {
    LoopBlock(off, i) < MAX_BLOCKS_IN_INODE && idx[LoopBlock(off, i)] < limit
  }

  /** How many of n bytes move before the loop meets a bad index. */
  function Moved(idx: BlockList, limit: nat, off: nat, n: nat): (m: nat)
    ensures m <= n
    ensures forall i :: 0 <= i < m ==> Usable(idx, limit, off, i)
    ensures m < n ==> !Usable(idx, limit, off, m)
  {
    if n == 0 then 0
    else
      var m := Moved(idx, limit, off, n - 1);
      if m == n - 1 && Usable(idx, limit, off, m) then n else m
  }

  /** The bytes of a file that lie between `off` and its end, at most n. */
  function Available(len: nat, off: nat, n: nat): nat {
    if off >= len then 0 else Min(n, len - off)
  }

  /** What the transfer loop copies out of the file. */
  function Peek(blocks: seq<Block>, idx: BlockList, off: nat, n: nat): (s: seq<byte>)
    requires forall i :: 0 <= i < n ==> Usable(idx, |blocks|, off, i)
    ensures |s| == n
  {
    seq(n, i requires 0 <= i < n =>
      assert Usable(idx, |blocks|, off, i); blocks[idx[LoopBlock(off, i)]][LoopPos(off, i)])
  }

  /** What the transfer loop makes of the blocks: the last byte wins. */
  function Poke(blocks: seq<Block>, idx: BlockList, off: nat, buf: seq<byte>): (r: seq<Block>)
    requires forall i :: 0 <= i < |buf| ==> Usable(idx, |blocks|, off, i)
    ensures |r| == |blocks|
  {
    if buf == [] then blocks
    else
      var n := |buf| - 1;
      var r := Poke(blocks, idx, off, buf[..n]);
      assert Usable(idx, |blocks|, off, n);
      var b := idx[LoopBlock(off, n)];
      r[b := r[b][LoopPos(off, n) := buf[n]]]
  }

  lemma PokeLast(blocks: seq<Block>, idx: BlockList, off: nat, buf: seq<byte>)
    requires buf != [] && forall i :: 0 <= i < |buf| ==> Usable(idx, |blocks|, off, i)
    ensures var n := |buf| - 1;
            && LoopBlock(off, n) < MAX_BLOCKS_IN_INODE && idx[LoopBlock(off, n)] < |blocks|
            && var r, b := Poke(blocks, idx, off, buf[..n]), idx[LoopBlock(off, n)];
            Poke(blocks, idx, off, buf) == r[b := r[b][LoopPos(off, n) := buf[n]]]
  {
    assert Usable(idx, |blocks|, off, |buf| - 1);
  }

  /** A memcpy into one block is that many single bytes. */
  lemma {:induction false} PokeChunk(blocks: seq<Block>, idx: BlockList, off: nat, buf: seq<byte>, a: nat, m: nat, k: nat, p: nat)
    requires forall i :: 0 <= i < |buf| ==> Usable(idx, |blocks|, off, i)
    requires a + m <= |buf| && p + m <= BLOCK && k < MAX_BLOCKS_IN_INODE && idx[k] < |blocks|
    requires forall i :: a <= i < a + m ==> LoopBlock(off, i) == k && LoopPos(off, i) == p + i - a
    ensures var r := Poke(blocks, idx, off, buf[..a]);
            Poke(blocks, idx, off, buf[..a + m])
              == r[idx[k] := r[idx[k]][..p] + buf[a..a + m] + r[idx[k]][p + m..]]
  {
    hide LoopBlock, LoopPos, Usable;
    var r := Poke(blocks, idx, off, buf[..a]);
    var b := idx[k];
    if m == 0 {
      assert r[b][..p] + buf[a..a] + r[b][p..] == r[b];
    } else {
      PokeChunk(blocks, idx, off, buf, a, m - 1, k, p);
      assert buf[..a + m][..a + m - 1] == buf[..a + m - 1];
      assert LoopBlock(off, a + m - 1) == k && LoopPos(off, a + m - 1) == p + m - 1;
      ChunkGrows(r[b], buf, a, m, p);
    }
  }

  lemma ChunkGrows(block: Block, buf: seq<byte>, a: nat, m: nat, p: nat)
    requires 1 <= m && a + m <= |buf| && p + m <= BLOCK
    ensures (block[..p] + buf[a..a + m - 1] + block[p + m - 1..])[p + m - 1 := buf[a + m - 1]]
         == block[..p] + buf[a..a + m] + block[p + m..]
  {
  }

  // ---------------------------------------------------------------- reading and writing

  const U16: nat := 0x1_0000

  /** A transfer the code can do without leaving the inode's block list and
      without 32-bit overflow. */
  predicate Addressable(off: nat, n: nat) {
    off / BLOCK < MAX_BLOCKS_IN_INODE && (off % BLOCK + n) / BLOCK + 1 < MAX_BLOCKS_IN_INODE && off + n < 0x1_0000_0000
  }

  /** The calls of read_data whose loop, if it runs, stays in the inode. */
  predicate ReadInRange(d: Disk, ino: nat, off: nat, n: nat) {
    ino < |d.inodes| && off < d.inodes[ino].length ==> Addressable(off, n)
  }

  function ReadCount(d: Disk, ino: nat, off: nat, n: nat): (r: int)
    requires ReadInRange(d, ino, off, n)
    ensures -1 <= r && r <= (if ino < |d.inodes| then Available(d.inodes[ino].length, off, n) else -1)
    ensures ino < |d.inodes| && off >= d.inodes[ino].length ==> r == 0
    ensures ino < |d.inodes| && off < d.inodes[ino].length ==>
      (r == -1 <==> d.inodes[ino].blocks[off / BLOCK] >= |d.blocks|)
  {
    if ino >= |d.inodes| then -1
    else
      var i := d.inodes[ino];
      if off >= i.length then 0
      else if i.blocks[off / BLOCK] >= |d.blocks| then -1
      else Moved(i.blocks, |d.blocks|, off, Available(i.length, off, n))
  }

  function ReadBytes(d: Disk, ino: nat, off: nat, n: nat): (s: seq<byte>)
    requires ReadInRange(d, ino, off, n)
    ensures |s| == if ReadCount(d, ino, off, n) < 0 then 0 else ReadCount(d, ino, off, n)
  {
    var r := ReadCount(d, ino, off, n);
    if r <= 0 then [] else Peek(d.blocks, d.inodes[ino].blocks, off, r)
  }

  /** The least free index of a bitmap below `limit`, or `limit`. */
  function FirstFree(bits: seq<bool>, limit: nat): (b: nat)
    requires limit <= |bits|
    ensures b <= limit && (b < limit ==> !bits[b])
    ensures forall k :: 0 <= k < b ==> bits[k]
  {
    FirstFreeFrom(bits, limit, 0)
  }

  function FirstFreeFrom(bits: seq<bool>, limit: nat, k: nat): (b: nat)
    requires k <= limit <= |bits|
    ensures k <= b <= limit && (b < limit ==> !bits[b])
    ensures forall j :: k <= j < b ==> bits[j]
    decreases limit - k
  {
    if k == limit || !bits[k] then k else FirstFreeFrom(bits, limit, k + 1)
  }

  function FreeCount(bits: seq<bool>): nat {
    if bits == [] then 0 else (if bits[0] then 0 else 1) + FreeCount(bits[1..])
  }

  function SetBlock(d: Disk, ino: nat, j: nat, b: nat): (r: Disk)
    requires ino < |d.inodes| && j < MAX_BLOCKS_IN_INODE
    ensures |r.inodes| == |d.inodes|
  {
    var i := d.inodes[ino];
    d.(inodes := d.inodes[ino := i.(blocks := i.blocks[j := b])])
  }

  function SetLength(d: Disk, ino: nat, len: nat): Disk
    requires ino < |d.inodes|
  {
    d.(inodes := d.inodes[ino := d.inodes[ino].(length := len)])
  }

  function SetData(d: Disk, b: nat, used: bool): Disk
    requires b < |d.dataMap|
  {
    d.(dataMap := d.dataMap[b := used])
  }

  /** r is d except for inode `ino`'s block list and length and the data bitmap. */
  ghost predicate OnlyClaims(d: Disk, r: Disk, ino: nat) {
    && |r.inodes| == |d.inodes| && |r.dataMap| == |d.dataMap|
    && r.dir == d.dir && r.count == d.count && r.inodeMap == d.inodeMap && r.blocks == d.blocks
    && forall k :: 0 <= k < |d.inodes| && k != ino ==> r.inodes[k] == d.inodes[k]
  }

  /** Undo n claims by the entries before slot `curr` of the block list. */
  function Rollback(d: Disk, ino: nat, curr: nat, n: nat): (r: Disk)
    requires Shape(d) && ino < |d.inodes| && n <= curr <= MAX_BLOCKS_IN_INODE
    requires forall j :: 0 <= j < MAX_BLOCKS_IN_INODE ==> d.inodes[ino].blocks[j] < MAX_DATA_BLOCKS
    ensures Shape(r) && OnlyClaims(d, r, ino) && r.inodes == d.inodes
    decreases n
  {
    if n == 0 then d else Rollback(SetData(d, d.inodes[ino].blocks[curr - n], false), ino, curr, n - 1)
  }

  predicate CanClaim(d: Disk, ino: nat, curr: nat, need: nat, done: nat) {
    && Shape(d) && ino < |d.inodes| && curr < MAX_BLOCKS_IN_INODE && done <= need
    && (forall j :: 0 <= j < MAX_BLOCKS_IN_INODE ==> d.inodes[ino].blocks[j] < MAX_DATA_BLOCKS)
    && (need <= curr || need - done <= FreeCount(d.dataMap))
  }

  /** `need` claims, the first `done` of which have been made; every claimed
      block is stored in slot `curr`. */
  function Claim(d: Disk, ino: nat, curr: nat, need: nat, done: nat): (r: Claimed)
    requires CanClaim(d, ino, curr, need, done)
    ensures Shape(r.disk) && OnlyClaims(d, r.disk, ino) && r.disk.inodes[ino].length == d.inodes[ino].length
    decreases need - done
  {
    if done == need then Claimed(true, d)
    else
      var b := FirstFree(d.dataMap, MAX_DATA_BLOCKS);
      if b == MAX_DATA_BLOCKS then
        NoneFree(d.dataMap);
        Claimed(false, Rollback(d, ino, curr, done))
      else
        OneFewer(d.dataMap, b);
        Claim(SetBlock(SetData(d, b, true), ino, curr, b), ino, curr, need, done + 1)
  }

  lemma {:induction false} OneFewer(bits: seq<bool>, b: nat)
    requires b < |bits| && !bits[b]
    ensures FreeCount(bits) == FreeCount(bits[b := true]) + 1
  {
    if b == 0 {
      assert bits[b := true][1..] == bits[1..];
    } else {
      assert bits[b := true][1..] == bits[1..][b - 1 := true];
      OneFewer(bits[1..], b - 1);
    }
  }

  lemma {:induction false} NoneFree(bits: seq<bool>)
    requires forall k :: 0 <= k < |bits| ==> bits[k]
    ensures FreeCount(bits) == 0
  {
    if bits != [] { NoneFree(bits[1..]); }
  }

  function CurrBlocks(len: nat): nat {
    (len / BLOCK + 1) % U16
  }

  function BlockDiff(len: nat, newLen: nat): nat {
    ((newLen / BLOCK + 1) % U16 - CurrBlocks(len)) % U16
  }

  /** Block counts are 16 bits wide: they wrap around for lengths that no disk
      can hold, and count one block more than the bytes need below that. */
  lemma BlockCountsWrap(len: nat, newLen: nat)
    ensures CurrBlocks(len + 0x1_0000 * 4096) == CurrBlocks(len) < 0x1_0000
    ensures len < 0xFFFF * 4096 ==> 4096 * (CurrBlocks(len) - 1) <= len < 4096 * CurrBlocks(len)
    ensures BlockDiff(len, newLen) < 0x1_0000 && (CurrBlocks(len) + BlockDiff(len, newLen)) % 0x1_0000 == CurrBlocks(newLen)
  {
  }

  /** The calls of write_data whose undo loop, if it runs, stays in the inode. */
  predicate UndoInRange(d: Disk, ino: nat, off: nat, n: nat)
    requires Shape(d)
  {
    ino < |d.inodes| && off >= d.inodes[ino].length ==>
      var len := d.inodes[ino].length;
      && (forall j :: 0 <= j < MAX_BLOCKS_IN_INODE ==> d.inodes[ino].blocks[j] < MAX_DATA_BLOCKS)
      && (BlockDiff(len, off + n) <= CurrBlocks(len) || BlockDiff(len, off + n) <= FreeCount(d.dataMap))
  }

  /** Make room for n bytes at `off` of a file, if that is past its end. */
  function Grow(d: Disk, ino: nat, off: nat, n: nat): (r: Claimed)
    requires Shape(d) && ino < |d.inodes| && UndoInRange(d, ino, off, n)
    ensures Shape(r.disk) && OnlyClaims(d, r.disk, ino)
  {
    var len := d.inodes[ino].length;
    if off < len then Claimed(true, d)
    else
      var claimed := if BlockDiff(len, off + n) > 0 && CurrBlocks(len) < MAX_BLOCKS_IN_INODE
                     then Claim(d, ino, CurrBlocks(len), BlockDiff(len, off + n), 0)
                     else Claimed(true, d);
      if !claimed.ok then claimed else Claimed(true, SetLength(claimed.disk, ino, off + n))
  }

  /** write_data: the new disk and the returned count. */
  function WriteData(d: Disk, ino: nat, off: nat, buf: seq<byte>): (r: Outcome)
    requires Shape(d) && Addressable(off, |buf|) && UndoInRange(d, ino, off, |buf|)
    ensures Shape(r.disk) && -1 <= r.value <= |buf|
    ensures ino >= |d.inodes| ==> r == Outcome(d, -1)
  {
    if ino >= |d.inodes| then Outcome(d, -1)
    else
      var Claimed(ok, g) := Grow(d, ino, off, |buf|);
      var idx := g.inodes[ino].blocks;
      if !ok || idx[off / BLOCK] >= |g.blocks| then Outcome(g, -1)
      else
        var m := Moved(idx, |g.blocks|, off, |buf|);
        Outcome(g.(blocks := Poke(g.blocks, idx, off, buf[..m])), m)
  }

  // ---------------------------------------------------------------- names

  /** The name in a directory entry: the bytes before the first zero. */
  function NameOf(f: seq<byte>): (s: seq<byte>)
    ensures |s| <= |f| && s <= f && 0 !in s
    ensures |s| < |f| ==> f[|s|] == 0
  {
    if f == [] || f[0] == 0 then [] else [f[0]] + NameOf(f[1..])
  }

  /** The first directory entry with exactly this name, or the count. */
  function Lookup(d: Disk, name: seq<byte>): (i: nat)
    requires Shape(d)
    ensures i <= d.count && (i < d.count ==> NameOf(d.dir[i].name) == name)
    ensures forall k :: 0 <= k < i ==> NameOf(d.dir[k].name) != name
  {
    LookupFrom(d, name, 0)
  }

  function LookupFrom(d: Disk, name: seq<byte>, k: nat): (i: nat)
    requires Shape(d) && k <= d.count
    ensures k <= i <= d.count && (i < d.count ==> NameOf(d.dir[i].name) == name)
    ensures forall j :: k <= j < i ==> NameOf(d.dir[j].name) != name
    decreases d.count - k
  {
    if k == d.count || NameOf(d.dir[k].name) == name then k else LookupFrom(d, name, k + 1)
  }

  /** strcpy of a name into an entry leaves the bytes behind the terminator. */
  function CopyName(field: NameField, name: seq<byte>): NameField
    requires |name| < MAX_FILENAME_LENGTH
  {
    name + [0] + field[|name| + 1..]
  }

  lemma CopyNameAt(field: NameField, name: seq<byte>, i: nat)
    requires |name| < MAX_FILENAME_LENGTH && i < MAX_FILENAME_LENGTH
    ensures CopyName(field, name)[i] == if i < |name| then name[i] else if i == |name| then 0 else field[i]
  {
  }

  /** create_new_file: the new disk, and the new entry's index or -1. */
  function CreateFile(d: Disk, name: seq<byte>): (r: Outcome)
    requires Shape(d) && |name| < MAX_FILENAME_LENGTH
    ensures Shape(r.disk)
  {
    var ino := FirstFree(d.inodeMap, MAX_DATA_BLOCKS);
    var b := FirstFree(d.dataMap, MAX_DATA_BLOCKS);
    if d.count >= NUM_DENTRIES || ino == MAX_DATA_BLOCKS || b == MAX_DATA_BLOCKS then Outcome(d, -1)
    else
      var i := d.inodes[ino];
      Outcome(Disk(d.dir[d.count := Dentry(CopyName(d.dir[d.count].name, name), FS_TYPE_FILE, ino)],
                   d.count + 1,
                   d.inodes[ino := Inode(0, i.blocks[0 := b])],
                   d.blocks,
                   d.dataMap[b := true],
                   d.inodeMap[ino := true]),
              d.count)
  }

  /** create_new_file as written.  Its two stores hit the reserved inode 0, whose
      content is z afterwards; no other inode changes. */
  function CreateAsWritten(d: Disk, name: seq<byte>, z: Inode): Outcome
    requires Shape(d) && |name| < MAX_FILENAME_LENGTH
  {
    var r := CreateFile(d, name);
    if r.value == -1 then r else Outcome(r.disk.(inodes := d.inodes[0 := z]), r.value)
  }

  // ---------------------------------------------------------------- the mount scan

  /** Entry i of the directory makes the scan mark its inode and blocks. */
  predicate Scanned(d: Disk, i: nat)
    requires Shape(d)
  {
    i < d.count && d.dir[i].name[0] != 0 && d.dir[i].inode != 0
  }

  /** The scan of a block list reaches block b in slot j: no empty slot comes
      before it. */
  ghost predicate ListedIn(idx: BlockList, j: nat, b: nat) {
    j < MAX_BLOCKS_IN_INODE && b != 0 && idx[j] == b && forall i :: 0 <= i < j ==> idx[i] != 0
  }

  ghost predicate Lists(idx: BlockList, b: nat) {
    exists j :: 0 <= j && ListedIn(idx, j, b)
  }

  /** Entry i of the directory makes the scan mark block b. */
  ghost predicate EntryLists(d: Disk, i: nat, b: nat)
    requires Shape(d)
  {
    Scanned(d, i) && d.dir[i].inode < |d.inodes| && Lists(d.inodes[d.dir[i].inode].blocks, b)
  }

  ghost predicate ScanInode(d: Disk, k: nat)
    requires Shape(d)
  {
    k == 0 || exists i :: 0 <= i < d.count && Scanned(d, i) && d.dir[i].inode == k
  }

  ghost predicate ScanData(d: Disk, b: nat)
    requires Shape(d)
  {
    b == 0 || exists i :: 0 <= i < d.count && EntryLists(d, i, b)
  }

  /** The bitmaps are what mounting this disk would compute. */
  ghost predicate BitmapsAgree(d: Disk)
    requires Shape(d)
  {
    && (forall k :: 0 <= k < MAX_INODES ==> d.inodeMap[k] == ScanInode(d, k))
    && (forall b :: 0 <= b < MAX_DATA_BLOCKS ==> d.dataMap[b] == ScanData(d, b))
  }
}
