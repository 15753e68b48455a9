/**
 The invariant of the file system: names are unique, no block has two owners,
 and the bitmaps are what a mount would compute.  Creating files keeps it, and
 so do writes that claim at most one block; a growing write that claims more
 breaks it unless nothing was free.
*/
module Ownership {
  import opened DiskImage
  import opened Contents

  /** Slot j of inode k holds block b.  Inode 0 and block 0 are reserved. */
  ghost predicate Owns(d: Disk, k: int, j: int, b: int) {
    1 <= k < |d.inodes| && 0 <= j < MAX_BLOCKS_IN_INODE && b != 0 && d.inodes[k].blocks[j] == b
  }

  ghost predicate Entry(d: Disk, i: int, k: int) {
    0 <= i < d.count <= |d.dir| && d.dir[i].inode == k
  }

  ghost predicate NamesUnique(d: Disk)
    requires Shape(d)
  {
    && (forall i :: 0 <= i < d.count ==> NameOf(d.dir[i].name) != [])
    && (forall i, j :: 0 <= i < d.count && 0 <= j < d.count && NameOf(d.dir[i].name) == NameOf(d.dir[j].name) ==> i == j)
  }

  ghost predicate InodesUnique(d: Disk)
    requires Shape(d)
  {
    && (forall i, k :: Entry(d, i, k) ==> k < |d.inodes|)
    && (forall i, j, k :: Entry(d, i, k) && Entry(d, j, k) && k != 0 ==> i == j)
    && (forall k :: 1 <= k < MAX_INODES ==> (d.inodeMap[k] <==> exists i :: Entry(d, i, k)))
    && d.inodeMap[0]
  }

  /** A block list: filled from the front, and empty for a free inode. */
  ghost predicate ListOk(d: Disk, k: nat)
    requires Shape(d) && k < |d.inodes|
  {
    var i := d.inodes[k];
    && (forall j :: 0 <= j < MAX_BLOCKS_IN_INODE ==> i.blocks[j] < MAX_DATA_BLOCKS)
    && (forall j, l :: 0 <= l < j < MAX_BLOCKS_IN_INODE && i.blocks[j] != 0 ==> i.blocks[l] != 0)
    && (!d.inodeMap[k] ==> forall j :: 0 <= j < MAX_BLOCKS_IN_INODE ==> i.blocks[j] == 0)
    && (d.inodeMap[k] ==> i.length <= MAX_BLOCKS_IN_INODE * BLOCK
                          && forall j :: 0 <= j < MAX_BLOCKS_IN_INODE && j * BLOCK < i.length ==> i.blocks[j] != 0)
  }

  ghost predicate BlocksUnique(d: Disk)
    requires Shape(d)
  {
    && (forall k, j, l, i, b :: Owns(d, k, j, b) && Owns(d, l, i, b) ==> k == l && j == i)
    && (forall b :: 1 <= b < MAX_DATA_BLOCKS ==> (d.dataMap[b] <==> exists k, j :: Owns(d, k, j, b)))
    && d.dataMap[0]
  }

  ghost predicate Valid(d: Disk) {
    && Shape(d) && NamesUnique(d) && InodesUnique(d) && BlocksUnique(d)
    && (forall k :: 1 <= k < |d.inodes| ==> ListOk(d, k))
  }

  /** As the kernel itself lays files out: exactly length / 4096 + 1 blocks. */
  ghost predicate Formatted(d: Disk, k: nat)
    requires k < |d.inodes|
  {
    forall j :: 0 <= j < MAX_BLOCKS_IN_INODE ==> (d.inodes[k].blocks[j] != 0 <==> j <= d.inodes[k].length / BLOCK)
  }

  ghost predicate InUse(d: Disk, k: int)
    requires Shape(d)
  {
    1 <= k < |d.inodes| && d.inodeMap[k]
  }

  // ---------------------------------------------------------------- the bitmaps are a cache of the scan

  lemma NamedFirstByte(f: NameField)
    ensures NameOf(f) != [] <==> f[0] != 0
  {
  }

  lemma ValidListed(d: Disk, k: nat, j: nat, b: nat)
    requires Valid(d) && 1 <= k < |d.inodes|
    ensures ListedIn(d.inodes[k].blocks, j, b) <==> Owns(d, k, j, b)
  {
    assert ListOk(d, k);
  }

  /** The bitmaps of a valid disk equal the ones a mount would build. */
  lemma ValidAgrees(d: Disk)
    requires Valid(d)
    ensures BitmapsAgree(d)
  {
    forall i | 0 <= i < d.count ensures Scanned(d, i) <==> d.dir[i].inode != 0 {
      NamedFirstByte(d.dir[i].name);
    }
    forall k | 0 <= k < MAX_INODES ensures d.inodeMap[k] == ScanInode(d, k) {
      if k > 0 {
        if d.inodeMap[k] {
          var i :| Entry(d, i, k);
          assert Scanned(d, i);
        }
        if ScanInode(d, k) {
          var i :| 0 <= i < d.count && Scanned(d, i) && d.dir[i].inode == k;
          assert Entry(d, i, k);
        }
      }
    }
    forall b | 0 <= b < MAX_DATA_BLOCKS ensures d.dataMap[b] == ScanData(d, b) {
      if b > 0 { DataScan(d, b); }
    }
  }

  lemma DataScan(d: Disk, b: nat)
    requires Valid(d) && 1 <= b < MAX_DATA_BLOCKS
    ensures d.dataMap[b] == ScanData(d, b)
  {
    if d.dataMap[b] {
      var k, j :| Owns(d, k, j, b);
      assert ListOk(d, k);
      var i :| Entry(d, i, k);
      NamedFirstByte(d.dir[i].name);
      ValidListed(d, k, j, b);
      assert EntryLists(d, i, b);
    }
    if ScanData(d, b) {
      var i :| 0 <= i < d.count && EntryLists(d, i, b);
      var j :| 0 <= j && ListedIn(d.inodes[d.dir[i].inode].blocks, j, b);
      ValidListed(d, d.dir[i].inode, j, b);
    }
  }

  // ---------------------------------------------------------------- creating files

  lemma {:induction false} NameOfTerminated(name: seq<byte>, rest: seq<byte>)
    requires 0 !in name
    ensures NameOf(name + [0] + rest) == name
  {
    if name == [] {
      assert ([0] + rest)[0] == 0;
    } else {
      assert (name + [0] + rest)[1..] == name[1..] + [0] + rest;
      NameOfTerminated(name[1..], rest);
    }
  }

  ghost predicate LegalName(name: seq<byte>) {
    1 <= |name| < MAX_FILENAME_LENGTH && 0 !in name
  }

  lemma CreateNames(d: Disk, name: seq<byte>)
    requires Valid(d) && LegalName(name) && Lookup(d, name) == d.count && CreateFile(d, name).value >= 0
    ensures NamesUnique(CreateFile(d, name).disk)
    ensures NameOf(CreateFile(d, name).disk.dir[d.count].name) == name
  {
    NameOfTerminated(name, d.dir[d.count].name[|name| + 1..]);
  }

  lemma CreateInodes(d: Disk, name: seq<byte>)
    requires Valid(d) && LegalName(name) && CreateFile(d, name).value >= 0
    ensures InodesUnique(CreateFile(d, name).disk)
  {
    var n, ino := CreateFile(d, name).disk, FirstFree(d.inodeMap, MAX_DATA_BLOCKS);
    assert forall i, k :: Entry(n, i, k) <==> Entry(d, i, k) || (i == d.count && k == ino);
    forall k | 1 <= k < MAX_INODES ensures n.inodeMap[k] <==> exists i :: Entry(n, i, k) {
      if n.inodeMap[k] {
        if k == ino {
          assert Entry(n, d.count, ino);
        } else {
          var i :| Entry(d, i, k);
          assert Entry(n, i, k);
        }
      }
    }
  }

  lemma CreateBlocks(d: Disk, name: seq<byte>)
    requires Valid(d) && LegalName(name) && CreateFile(d, name).value >= 0
    ensures BlocksUnique(CreateFile(d, name).disk)
  {
    var n, ino := CreateFile(d, name).disk, FirstFree(d.inodeMap, MAX_DATA_BLOCKS);
    var b := FirstFree(d.dataMap, MAX_DATA_BLOCKS);
    assert ListOk(d, ino);
    assert forall k, j, c :: Owns(n, k, j, c) <==> Owns(d, k, j, c) || (k == ino && j == 0 && c == b);
    forall c | 1 <= c < MAX_DATA_BLOCKS ensures n.dataMap[c] <==> exists k, j :: Owns(n, k, j, c) {
      if n.dataMap[c] {
        if c == b {
          assert Owns(n, ino, 0, b);
        } else {
          var k, j :| Owns(d, k, j, c);
          assert Owns(n, k, j, c);
        }
      }
    }
  }

  /** A new file gets a fresh inode and one block; it is found by its name, and
      nothing else changes.  If anything is exhausted, nothing changes at all. */
  lemma CreateKeepsValid(d: Disk, name: seq<byte>)
    requires Valid(d) && LegalName(name) && Lookup(d, name) == d.count
    ensures var r := CreateFile(d, name);
            && Valid(r.disk)
            && (r.value == -1 <==>
                  || d.count == NUM_DENTRIES
                  || (forall k :: 0 <= k < MAX_DATA_BLOCKS ==> d.inodeMap[k])
                  || (forall b :: 0 <= b < MAX_DATA_BLOCKS ==> d.dataMap[b]))
            && (r.value == -1 ==> r.disk == d)
    ensures var r := CreateFile(d, name);
            r.value != -1 ==>
              var ino := r.disk.dir[d.count].inode;
              && r.value == d.count == Lookup(r.disk, name) && r.disk.count == d.count + 1
              && NameOf(r.disk.dir[d.count].name) == name && r.disk.dir[..d.count] == d.dir[..d.count]
              && !d.inodeMap[ino] && InUse(r.disk, ino) && Formatted(r.disk, ino) && Content(r.disk, ino) == []
              && (forall k :: 0 <= k < |d.inodes| && k != ino ==> r.disk.inodes[k] == d.inodes[k])
              && r.disk.blocks == d.blocks
  {
    if CreateFile(d, name).value >= 0 {
      var n, ino := CreateFile(d, name).disk, FirstFree(d.inodeMap, MAX_DATA_BLOCKS);
      assert ListOk(d, ino);
      CreateNames(d, name);
      CreateInodes(d, name);
      CreateBlocks(d, name);
      forall k | 1 <= k < |n.inodes| ensures ListOk(n, k) {
        assert ListOk(d, k);
      }
      assert Lookup(n, name) == d.count by {
        assert NameOf(n.dir[Lookup(n, name)].name) == name;
      }
    }
  }

  /** create_new_file as written never initialises the inode it has claimed: the
      address it takes is that of no inode a file can get. */
  lemma NewInodeMisaddressed(d: Disk, name: seq<byte>, base: int)
    requires Valid(d) && LegalName(name) && Lookup(d, name) == d.count && CreateFile(d, name).value != -1
    ensures var ino := CreateFile(d, name).disk.dir[d.count].inode;
            && ino > 0
            && forall k: nat :: AddressByIndex(base, ino) != InodeAddress(base, k)
  {
    hide NamesUnique, BlocksUnique, ListOk, Formatted, Content, Lookup, NameOf, InodeAddress, AddressByIndex;
    var ino := FirstFree(d.inodeMap, MAX_DATA_BLOCKS);
    InodeAddressesApart(base, ino);
  }

  /** As written, a creation that succeeds leaves the file's inode as it was and
      its block marked and in no list.  So the bitmaps are what a mount would
      build, and the disk is valid, if and only if the call failed. */
  lemma CreateAsWrittenIff(d: Disk, name: seq<byte>, z: Inode)
    requires Valid(d) && LegalName(name) && Lookup(d, name) == d.count
    ensures var r := CreateAsWritten(d, name, z);
            && Shape(r.disk)
            && (BitmapsAgree(r.disk) <==> r.value == -1)
            && (Valid(r.disk) <==> r.value == -1)
    ensures var r, b := CreateAsWritten(d, name, z), FirstFree(d.dataMap, MAX_DATA_BLOCKS);
            r.value != -1 ==>
              var ino := r.disk.dir[d.count].inode;
              && NameOf(r.disk.dir[d.count].name) == name && 0 < ino < |d.inodes| && r.disk.inodes[ino] == d.inodes[ino]
              && r.disk.dataMap[b] && !ScanData(r.disk, b)
  {
    var r, b := CreateAsWritten(d, name, z), FirstFree(d.dataMap, MAX_DATA_BLOCKS);
    CreateKeepsValid(d, name);
    if r.value == -1 {
      ValidAgrees(d);
    } else {
      NewBlockUnlisted(d, name, z, b);
      if Valid(r.disk) { ValidAgrees(r.disk); }
    }
  }

  lemma NewBlockUnlisted(d: Disk, name: seq<byte>, z: Inode, b: nat)
    requires Valid(d) && LegalName(name) && CreateAsWritten(d, name, z).value != -1
    requires b == FirstFree(d.dataMap, MAX_DATA_BLOCKS)
    ensures !ScanData(CreateAsWritten(d, name, z).disk, b)
  {
    var r := CreateAsWritten(d, name, z).disk;
    forall i, j | 0 <= i < r.count && 0 <= j && Scanned(r, i) && r.dir[i].inode < |d.inodes|
      ensures !ListedIn(r.inodes[r.dir[i].inode].blocks, j, b)
    {
      assert !Owns(d, r.dir[i].inode, j, b);
    }
  }

  // ---------------------------------------------------------------- counting blocks

  lemma {:induction false} Pigeons(s: seq<nat>, limit: nat)
    requires forall j :: 0 <= j < |s| ==> 1 <= s[j] <= limit
    requires forall j, l :: 0 <= j < l < |s| ==> s[j] != s[l]
    ensures |s| <= limit
    decreases limit
  {
    if s != [] {
      assert 1 <= s[0] <= limit;
      if j :| 0 <= j < |s| && s[j] == limit {
        Pigeons(s[..j] + s[j + 1..], limit - 1);
      } else {
        Pigeons(s, limit - 1);
      }
    }
  }

  /** A file cannot have more blocks than the disk. */
  lemma BlocksBounded(d: Disk, k: nat)
    requires Valid(d) && InUse(d, k) && Formatted(d, k)
    ensures d.inodes[k].length / BLOCK + 1 < MAX_DATA_BLOCKS
  {
    var i := d.inodes[k];
    assert ListOk(d, k);
    var n := Min(i.length / BLOCK + 1, MAX_BLOCKS_IN_INODE);
    var s := i.blocks[..n];
    forall j, l | 0 <= j < l < |s| ensures s[j] != s[l] {
      if s[j] == s[l] {
        assert Owns(d, k, j, s[j]) && Owns(d, k, l, s[j]);
      }
    }
    forall j | 0 <= j < |s| ensures 1 <= s[j] <= MAX_DATA_BLOCKS - 1 {
      assert i.blocks[j] != 0;
    }
    Pigeons(s, MAX_DATA_BLOCKS - 1);
  }

  /** No file is longer than the disk. */
  lemma LengthBounded(d: Disk, k: nat)
    requires Valid(d) && InUse(d, k)
    ensures d.inodes[k].length < MAX_DATA_BLOCKS * BLOCK
  {
    var i := d.inodes[k];
    assert ListOk(d, k);
    var n := (i.length + BLOCK - 1) / BLOCK;
    var s := i.blocks[..n];
    forall j, l | 0 <= j < l < |s| ensures s[j] != s[l] {
      if s[j] == s[l] {
        assert Owns(d, k, j, s[j]) && Owns(d, k, l, s[j]);
      }
    }
    forall j | 0 <= j < |s| ensures 1 <= s[j] <= MAX_DATA_BLOCKS - 1 {
      assert i.blocks[j] != 0;
    }
    Pigeons(s, MAX_DATA_BLOCKS - 1);
  }

  lemma ValidBacked(d: Disk, k: nat)
    requires Valid(d) && InUse(d, k)
    ensures Backed(d, k) && d.inodes[k].length < MAX_DATA_BLOCKS * BLOCK
  {
    assert ListOk(d, k);
    LengthBounded(d, k);
  }
}
