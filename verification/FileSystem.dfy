/**
 The file system in memory: the mounted image and its two bitmaps, changed in
 place.  Every method is proved against the function of `DiskImage` it implements.
*/
module FileSystem {
  import opened DiskImage
  import opened Ownership

  class FileSystem {
    const dir: array<Dentry>
    const inodes: array<Inode>
    const blocks: array<Block>
    const dataMap: array<bool>
    const inodeMap: array<bool>
    var count: nat

    ghost predicate Ok()
      reads this, dir, inodes, blocks, dataMap, inodeMap
    {
      dataMap != inodeMap && Shape(Image())
    }

    ghost function Image(): Disk
      reads this, dir, inodes, blocks, dataMap, inodeMap
    {
      Disk(dir[..], count, inodes[..], blocks[..], dataMap[..], inodeMap[..])
    }

    /** An image already in memory, with the bitmaps of a fresh kernel. */
    constructor (entries: seq<Dentry>, count: nat, nodes: seq<Inode>, data: seq<Block>)
      requires Shape(Disk(entries, count, nodes, data, seq(MAX_DATA_BLOCKS, _ => false), seq(MAX_INODES, _ => false)))
      ensures Ok()
      ensures Image() == Disk(entries, count, nodes, data,
                              seq(MAX_DATA_BLOCKS, _ => false), seq(MAX_INODES, _ => false))
      ensures fresh(dir) && fresh(inodes) && fresh(blocks) && fresh(dataMap) && fresh(inodeMap)
    {
      dir := new Dentry[|entries|](i requires 0 <= i < |entries| => entries[i]);
      inodes := new Inode[|nodes|](i requires 0 <= i < |nodes| => nodes[i]);
      blocks := new Block[|data|](i requires 0 <= i < |data| => data[i]);
      dataMap := new bool[MAX_DATA_BLOCKS](_ => false);
      inodeMap := new bool[MAX_INODES](_ => false);
      this.count := count;
      new;
      assert dir[..] == entries && inodes[..] == nodes && blocks[..] == data;
      assert dataMap[..] == seq(MAX_DATA_BLOCKS, _ => false) && inodeMap[..] == seq(MAX_INODES, _ => false);
    }

    // -------------------------------------------------------------- allocation

    method ClaimFreeDataBlock() returns (b: int)
      requires Ok()
      modifies dataMap
      ensures var f := FirstFree(old(Image()).dataMap, MAX_DATA_BLOCKS);
              if f == MAX_DATA_BLOCKS then b == -1 && Image() == old(Image())
              else b == f && Image() == SetData(old(Image()), f, true)
    {
      var i := 0;
      while i < MAX_DATA_BLOCKS
        invariant 0 <= i <= MAX_DATA_BLOCKS && Image() == old(Image())
        invariant forall k :: 0 <= k < i ==> dataMap[k]
      {
        if !dataMap[i] {
          assert Image().dataMap[i] == dataMap[i];
          FirstFreeIs(Image().dataMap, MAX_DATA_BLOCKS, i);
          dataMap[i] := true;
          return i;
        }
        i := i + 1;
      }
      b := -1;
    }

    /** The search stops at the number of data blocks, not of inodes. */
    method ClaimFreeInodeBlock() returns (k: int)
      requires Ok()
      modifies inodeMap
      ensures var f := FirstFree(old(Image()).inodeMap, MAX_DATA_BLOCKS);
              if f == MAX_DATA_BLOCKS then k == -1 && Image() == old(Image())
              else k == f && Image() == old(Image()).(inodeMap := old(Image()).inodeMap[f := true])
    {
      var i := 0;
      while i < MAX_DATA_BLOCKS
        invariant 0 <= i <= MAX_DATA_BLOCKS && Image() == old(Image())
        invariant forall k :: 0 <= k < i ==> inodeMap[k]
      {
        if !inodeMap[i] {
          assert Image().inodeMap[i] == inodeMap[i];
          FirstFreeIs(Image().inodeMap, MAX_DATA_BLOCKS, i);
          inodeMap[i] := true;
          return i;
        }
        i := i + 1;
      }
      k := -1;
    }

    // -------------------------------------------------------------- lookup

    /** The index of the first entry whose name is the C string `fname`, or -1. */
    method ReadDentryByName(fname: seq<byte>) returns (found: int)
      requires Ok() && 0 !in fname
      ensures found == if Lookup(Image(), fname) < count then Lookup(Image(), fname) else -1
    {
      var i := 0;
      while i < count
        invariant 0 <= i <= count
        invariant LookupFrom(Image(), fname, i) == Lookup(Image(), fname)
      {
        var match_ := SameName(fname, dir[i].name);
        assert dir[i] == Image().dir[i];
        if match_ {
          return i;
        }
        i := i + 1;
      }
      found := -1;
    }

    /** The character loop of the lookup. */
    static method SameName(fname: seq<byte>, field: NameField) returns (same: bool)
      requires 0 !in fname
      ensures same <==> NameOf(field) == fname
    {
      var ch := 0;
      while ch < MAX_FILENAME_LENGTH
        invariant 0 <= ch <= MAX_FILENAME_LENGTH && ch <= |fname|
        invariant fname[..ch] == field[..ch]
        invariant ch == MAX_FILENAME_LENGTH ==> |fname| == MAX_FILENAME_LENGTH
      {
        var c := CharAt(fname, ch);
        if c != field[ch] {
          NameDiffers(fname, field, ch);
          return false;
        }
        if c == 0 {
          NameIs(fname, field);
          return true;
        } else if ch == MAX_FILENAME_LENGTH - 1 && CharAt(fname, MAX_FILENAME_LENGTH) != 0 {
          return false;
        }
        ch := ch + 1;
      }
      NameIs(fname, field);
      same := true;
    }

    /** An empty directory makes the unsigned bound wrap around. */
    method ReadDentryByIndex(index: nat) returns (found: bool, dentry: Dentry)
      requires Ok() && (count == 0 ==> index < NUM_DENTRIES) && index < 0x1_0000_0000
      ensures found == (index < count || count == 0)
      ensures found ==> dentry == Image().dir[index]
    {
      dentry := dir[0];
      if index > (count - 1) % 0x1_0000_0000 {
        return false, dentry;
      }
      dentry := dir[index];
      found := true;
    }

    // -------------------------------------------------------------- transfers

    static method Memcpy(buf: array<byte>, at: nat, data: Block, from: nat, n: nat)
      requires at + n <= buf.Length && from + n <= BLOCK
      modifies buf
      ensures |buf[..]| == |old(buf[..])|
      ensures buf[..][..at] == old(buf[..])[..at]
      ensures buf[..][at..at + n] == data[from..from + n]
      ensures buf[..][at + n..] == old(buf[..])[at + n..]
    {
      forall i | 0 <= i < n {
        buf[at + i] := data[from + i];
      }
    }

    /** The transfer loop of read_data, for a valid first block. */
    method CopyOut(idx: BlockList, off: nat, buf: array<byte>, n: nat) returns (bytesRead: nat)
      requires Ok() && Addressable(off, n) && n <= buf.Length && idx[off / BLOCK] < blocks.Length
      modifies buf
      ensures bytesRead == Moved(idx, blocks.Length, off, n)
      ensures buf[..bytesRead] == Peek(blocks[..], idx, off, bytesRead)
      ensures buf[..][bytesRead..] == old(buf[..])[bytesRead..]
    {
      hide Moved, Shape, Peek;
      ghost var data := blocks[..];
      var currOffset, bytesRemaining, slot := off % BLOCK, n, 0;
      var block := idx[slot + off / BLOCK];
      bytesRead := 0;
      while bytesRemaining > 0
        invariant bytesRead + bytesRemaining == n && bytesRemaining >= 0 && blocks[..] == data
        invariant bytesRemaining > 0 ==>
          && slot == (off % BLOCK + bytesRead) / BLOCK
          && block < blocks.Length && currOffset == LoopPos(off, bytesRead)
          && block == idx[LoopBlock(off, bytesRead)]
        invariant Moving(data, idx, off, bytesRead, buf[..])
        invariant buf[..][bytesRead..] == old(buf[..])[bytesRead..]
      {
        var toCopy := BLOCK - currOffset;
        if bytesRemaining < toCopy {
          toCopy := bytesRemaining;
        }
        ghost var before := buf[..];
        Memcpy(buf, bytesRead, blocks[block], currOffset, toCopy);
        SameEnds(buf[..], before, old(buf[..]), bytesRead, toCopy);
        MovedChunk(data, idx, off, bytesRead, toCopy, before, buf[..]);
        ChunkEnd(off, bytesRead);
        bytesRead := bytesRead + toCopy;
        bytesRemaining := bytesRemaining - toCopy;
        slot := slot + 1;
        block := idx[slot];
        currOffset := 0;
        if block > blocks.Length - 1 {
          break;
        }
      }
      MovedIs(idx, |data|, off, n, bytesRead);
      ArrivedIsPeek(data, idx, off, bytesRead, buf[..]);
    }

    /** Copy up to n bytes from `off` of a file into `buf`. */
    method ReadData(inode: nat, off: nat, buf: array<byte>, n: nat) returns (r: int)
      requires Ok() && ReadInRange(Image(), inode, off, n) && n <= buf.Length
      modifies buf
      ensures r == ReadCount(Image(), inode, off, n)
      ensures buf[..if r < 0 then 0 else r] == ReadBytes(Image(), inode, off, n)
      ensures buf[..][if r < 0 then 0 else r..] == old(buf[..])[if r < 0 then 0 else r..]
    {
      if inode > inodes.Length - 1 {
        return -1;
      }
      var node := inodes[inode];
      if off >= node.length {
        return 0;
      }
      var maxLength := n;
      if node.length < n + off {
        maxLength := node.length - off;
      }
      if node.blocks[off / BLOCK] > blocks.Length - 1 {
        return -1;
      }
      r := CopyOut(node.blocks, off, buf, maxLength);
    }

    /** The undo loop: unmark the blocks in the slots before `curr`. */
    method UnclaimBlocks(inode: nat, curr: nat, n: nat)
      requires Ok() && inode < inodes.Length && n <= curr <= MAX_BLOCKS_IN_INODE
      requires forall j :: 0 <= j < MAX_BLOCKS_IN_INODE ==> inodes[inode].blocks[j] < MAX_DATA_BLOCKS
      modifies dataMap
      ensures Ok() && Image() == Rollback(old(Image()), inode, curr, n)
    {
      var left := n;
      while left > 0
        invariant 0 <= left <= n && Ok() && Image().inodes == old(Image()).inodes
        invariant Rollback(Image(), inode, curr, left) == Rollback(old(Image()), inode, curr, n)
      {
        var b := inodes[inode].blocks[curr - left];
        ghost var before := Image();
        dataMap[b] := false;
        assert Image() == SetData(before, b, false);
        left := left - 1;
      }
    }

    /** Claim `need` blocks for an inode, all into slot `curr`. */
    method ClaimBlocks(inode: nat, curr: nat, need: nat) returns (ok: bool)
      requires Ok() && CanClaim(Image(), inode, curr, need, 0)
      modifies inodes, dataMap
      ensures Ok() && Claimed(ok, Image()) == Claim(old(Image()), inode, curr, need, 0)
    {
      var i := 0;
      while i < need
        invariant 0 <= i <= need && Ok() && CanClaim(Image(), inode, curr, need, i)
        invariant Claim(Image(), inode, curr, need, i) == Claim(old(Image()), inode, curr, need, 0)
      {
        ghost var before := Image();
        var b := ClaimFreeDataBlock();
        if b == -1 {
          NoneFree(before.dataMap);
          UnclaimBlocks(inode, curr, i);
          return false;
        }
        OneFewer(before.dataMap, b);
        inodes[inode] := inodes[inode].(blocks := inodes[inode].blocks[curr := b]);
        assert Image() == SetBlock(SetData(before, b, true), inode, curr, b);
        i := i + 1;
      }
      ok := true;
    }

    /** Make room for a write past the end of a file. */
    method GrowFile(inode: nat, off: nat, n: nat) returns (ok: bool)
      requires Ok() && inode < inodes.Length && UndoInRange(Image(), inode, off, n)
      modifies inodes, dataMap
      ensures Ok() && Claimed(ok, Image()) == Grow(old(Image()), inode, off, n)
    {
      hide Claim, Rollback, FreeCount, OnlyClaims;
      var length := inodes[inode].length;
      var curr := (length / BLOCK + 1) % U16;
      ok := true;
      if off >= length {
        var newLength := off + n;
        var required := (newLength / BLOCK + 1) % U16;
        var diff := (required - curr) % U16;
        if diff > 0 && curr < MAX_BLOCKS_IN_INODE {
          ok := ClaimBlocks(inode, curr, diff);
          if !ok {
            return;
          }
        }
        ghost var before := Image();
        inodes[inode] := inodes[inode].(length := newLength);
        assert Image() == SetLength(before, inode, newLength);
      }
    }

    /** The transfer loop of write_data, for a valid first block. */
    method CopyIn(idx: BlockList, off: nat, buf: seq<byte>) returns (bytesWritten: nat)
      requires Ok() && Addressable(off, |buf|) && idx[off / BLOCK] < blocks.Length
      modifies blocks
      ensures bytesWritten == Moved(idx, blocks.Length, off, |buf|)
      ensures blocks[..] == Poke(old(blocks[..]), idx, off, buf[..bytesWritten])
    {
      hide Moved, Shape, Poke;
      ghost var data := blocks[..];
      var currOffset, bytesRemaining, slot := off % BLOCK, |buf|, 0;
      var block := idx[slot + off / BLOCK];
      bytesWritten := 0;
      PokeNothing(data, idx, off);
      assert buf[..0] == [];
      while bytesRemaining > 0
        invariant bytesWritten + bytesRemaining == |buf| && bytesRemaining >= 0
        invariant bytesRemaining > 0 ==>
          && slot == (off % BLOCK + bytesWritten) / BLOCK
          && block < blocks.Length && currOffset == LoopPos(off, bytesWritten)
          && block == idx[LoopBlock(off, bytesWritten)]
        invariant forall i :: 0 <= i < bytesWritten ==> Usable(idx, |data|, off, i)
        invariant blocks[..] == Poke(data, idx, off, buf[..bytesWritten])
      {
        var toCopy := BLOCK - currOffset;
        if bytesRemaining < toCopy {
          toCopy := bytesRemaining;
        }
        WriteChunk(data, idx, off, buf, bytesWritten, toCopy);
        blocks[block] := blocks[block][..currOffset] + buf[bytesWritten..bytesWritten + toCopy]
                         + blocks[block][currOffset + toCopy..];
        ChunkEnd(off, bytesWritten);
        bytesWritten := bytesWritten + toCopy;
        bytesRemaining := bytesRemaining - toCopy;
        slot := slot + 1;
        block := idx[slot];
        currOffset := 0;
        if block > blocks.Length - 1 {
          break;
        }
      }
      MovedIs(idx, |data|, off, |buf|, bytesWritten);
    }

    /** Write the bytes of `buf` at `off` of a file. */
    method WriteData(inode: nat, off: nat, buf: seq<byte>) returns (r: int)
      requires Ok() && Addressable(off, |buf|) && UndoInRange(Image(), inode, off, |buf|)
      modifies inodes, dataMap, blocks
      ensures Ok() && Outcome(Image(), r) == DiskImage.WriteData(old(Image()), inode, off, buf)
    {
      if inode > inodes.Length - 1 {
        return -1;
      }
      var ok := GrowFile(inode, off, |buf|);
      if !ok {
        return -1;
      }
      var idx := inodes[inode].blocks;
      if idx[off / BLOCK] > blocks.Length - 1 {
        return -1;
      }
      r := CopyIn(idx, off, buf);
    }

    // -------------------------------------------------------------- creating files

    /** Copy a C string, with its terminator, over the start of a field. */
    static method Strcpy(field: NameField, src: array<byte>, ghost name: seq<byte>) returns (r: NameField)
      requires |name| < MAX_FILENAME_LENGTH <= src.Length && 0 !in name && src[..|name| + 1] == name + [0]
      ensures r == CopyName(field, name)
    {
      r := field;
      var i := 0;
      assert src[0] == src[..|name| + 1][0];
      while src[i] != 0
        invariant 0 <= i <= |name| && r == name[..i] + field[i..] && src[i] == (name + [0])[i]
        decreases |name| - i
      {
        r := r[i := src[i]];
        i := i + 1;
        assert src[i] == src[..|name| + 1][i];
      }
      r := r[i := src[i]];
    }

    /** The name copy of create_new_file: into a cleared buffer, then into the
        directory entry. */
    static method CopyFileName(fname: seq<byte>, field: NameField) returns (r: NameField)
      requires |fname| < MAX_FILENAME_LENGTH && 0 !in fname
      ensures r == CopyName(field, fname)
    {
      var validChars := new byte[MAX_FILENAME_LENGTH](_ => 0);
      var i := 0;
      while i < MAX_FILENAME_LENGTH
        invariant 0 <= i <= |fname| && validChars[..i] == fname[..i]
        invariant forall k :: i <= k < MAX_FILENAME_LENGTH ==> validChars[k] == 0
        decreases MAX_FILENAME_LENGTH - i
      {
        if CharAt(fname, i) == 0 {
          break;
        }
        validChars[i] := CharAt(fname, i);
        i := i + 1;
      }
      assert i == |fname| && fname[..i] == fname;
      r := Strcpy(field, validChars, fname);
    }

    /** A new file at the end of the directory: its index, or -1. */
    method CreateNewFile(fname: seq<byte>) returns (index: int)
      requires Ok() && |fname| < MAX_FILENAME_LENGTH && 0 !in fname
      modifies this`count, dir, inodes, dataMap, inodeMap
      ensures Ok() && Outcome(Image(), index) == CreateFile(old(Image()), fname)
    {
      if count >= NUM_DENTRIES {
        return -1;
      }
      ghost var d := Image();
      var inode := ClaimFreeInodeBlock();
      if inode == -1 {
        return -1;
      }
      var block := ClaimFreeDataBlock();
      if block == -1 {
        inodeMap[inode] := false;
        assert Image().inodeMap == d.inodeMap;
        return -1;
      }
      var name := CopyFileName(fname, dir[count].name);
      dir[count] := Dentry(name, FS_TYPE_FILE, inode);
      inodes[inode] := inodes[inode].(length := 0);
      inodes[inode] := inodes[inode].(blocks := inodes[inode].blocks[0 := block]);
      index := count;
      count := count + 1;
      assert Image() == CreateFile(d, fname).disk;
    }

    // -------------------------------------------------------------- mount

    /** Every index the scan uses is inside its bitmap. */
    ghost predicate Scannable()
      reads this, dir, inodes, blocks, dataMap, inodeMap
    {
      && Ok()
      && forall i :: 0 <= i < count && dir[i].name[0] != 0 && dir[i].inode != 0 ==>
           dir[i].inode < inodes.Length && Markable(inodes[dir[i].inode].blocks)
    }

    /** The inner loop of the scan: mark the blocks of one list. */
    method MarkBlocks(idx: BlockList)
      requires Ok() && Markable(idx)
      modifies dataMap
      ensures Ok() && Image().(dataMap := []) == old(Image()).(dataMap := [])
      ensures forall b :: 0 <= b < MAX_DATA_BLOCKS ==>
        (dataMap[b] <==> old(dataMap[b]) || Lists(idx, b))
    {
      var j := 0;
      while j < MAX_BLOCKS_IN_INODE
        invariant 0 <= j <= MAX_BLOCKS_IN_INODE && Ok()
        invariant forall l :: 0 <= l < j ==> idx[l] != 0
        invariant forall b :: 0 <= b < MAX_DATA_BLOCKS ==>
          (dataMap[b] <==> old(dataMap[b]) || exists l :: 0 <= l < j && ListedIn(idx, l, b))
      {
        if idx[j] == 0 {
          break;
        }
        assert idx[j] < MAX_DATA_BLOCKS;
        assert ListedIn(idx, j, idx[j]);
        dataMap[idx[j]] := true;
        j := j + 1;
      }
    }

    /** One round of the scan. */
    method ScanEntry(i: nat)
      requires Scannable() && i < count
      modifies dataMap, inodeMap
      ensures Ok() && Image().(dataMap := [], inodeMap := []) == old(Image()).(dataMap := [], inodeMap := [])
      ensures OneRound(old(Image()), i, Image())
    {
      hide Lists;
      var _, entry := ReadDentryByIndex(i);
      if entry.name[0] != 0 && entry.inode != 0 {
        inodeMap[entry.inode] := true;
        MarkBlocks(inodes[entry.inode].blocks);
      }
    }

    /** Rebuild the bitmaps from the directory and the inodes. */
    method FsInit()
      requires Scannable()
      requires (forall k :: 0 <= k < MAX_INODES ==> !inodeMap[k]) && (forall b :: 0 <= b < MAX_DATA_BLOCKS ==> !dataMap[b])
      modifies dataMap, inodeMap
      ensures Ok() && BitmapsAgree(Image())
      ensures Image().(dataMap := [], inodeMap := []) == old(Image()).(dataMap := [], inodeMap := [])
    {
      hide Marks, OneRound, BitmapsAgree;
      dataMap[0] := true;
      inodeMap[0] := true;
      ghost var d := old(Image());
      var i := 0;
      NothingMarked(d, Image());
      while i < count
        invariant 0 <= i <= count && Scannable() && Marks(d, i, Image())
        invariant Image().(dataMap := [], inodeMap := []) == d.(dataMap := [], inodeMap := [])
      {
        ghost var before := Image();
        ScanEntry(i);
        MarkedNext(d, i, before, Image());
        i := i + 1;
      }
      MarkedIsScan(d, Image());
    }
  }

  /** The blocks of a list up to its first empty slot are blocks of the disk. */
  ghost predicate Markable(idx: BlockList) {
    forall j :: 0 <= j < MAX_BLOCKS_IN_INODE && (forall l :: 0 <= l < j ==> idx[l] != 0) ==> idx[j] < MAX_DATA_BLOCKS
  }

  /** Marked once the entries before i are done. */
  ghost predicate MarkedInode(d: Disk, i: nat, k: nat)
    requires Shape(d)
  {
    k == 0 || exists e :: 0 <= e < i && Scanned(d, e) && d.dir[e].inode == k
  }

  ghost predicate MarkedData(d: Disk, i: nat, b: nat)
    requires Shape(d)
  {
    b == 0 || exists e :: 0 <= e < i && EntryLists(d, e, b)
  }

  /** The bitmaps hold what the entries before i make the scan mark. */
  ghost predicate Marks(d: Disk, i: nat, r: Disk)
    requires Shape(d) && Shape(r)
  {
    && (forall k :: 0 <= k < MAX_INODES ==> (r.inodeMap[k] <==> MarkedInode(d, i, k)))
    && (forall b :: 0 <= b < MAX_DATA_BLOCKS ==> (r.dataMap[b] <==> MarkedData(d, i, b)))
  }

  /** What entry i makes the scan add to the bitmaps of d. */
  ghost predicate OneRound(d: Disk, i: nat, r: Disk)
    requires Shape(d) && Shape(r)
  {
    && (forall k :: 0 <= k < MAX_INODES ==>
          (r.inodeMap[k] <==> d.inodeMap[k] || (Scanned(d, i) && d.dir[i].inode == k)))
    && (forall b :: 0 <= b < MAX_DATA_BLOCKS ==> (r.dataMap[b] <==> d.dataMap[b] || EntryLists(d, i, b)))
  }

  lemma NothingMarked(d: Disk, r: Disk)
    requires Shape(d) && Shape(r)
    requires forall k :: 0 <= k < MAX_INODES ==> (r.inodeMap[k] <==> k == 0)
    requires forall b :: 0 <= b < MAX_DATA_BLOCKS ==> (r.dataMap[b] <==> b == 0)
    ensures Marks(d, 0, r)
  {
  }

  lemma MarkedNext(d: Disk, i: nat, before: Disk, after: Disk)
    requires Shape(d) && Shape(before) && Shape(after) && i < d.count
    requires Marks(d, i, before) && OneRound(before, i, after)
    requires before.(dataMap := [], inodeMap := []) == d.(dataMap := [], inodeMap := [])
    ensures Marks(d, i + 1, after)
  {
    SameScan(d, before);
    hide EntryLists, Scanned;
    forall k | 0 <= k < MAX_INODES
      ensures MarkedInode(d, i + 1, k) <==> MarkedInode(d, i, k) || (Scanned(d, i) && d.dir[i].inode == k)
    {
      if Scanned(d, i) && d.dir[i].inode == k { assert 0 <= i < i + 1; }
    }
    forall b | 0 <= b < MAX_DATA_BLOCKS
      ensures MarkedData(d, i + 1, b) <==> MarkedData(d, i, b) || EntryLists(d, i, b)
    {
      if EntryLists(d, i, b) { assert 0 <= i < i + 1; }
    }
  }

  /** The scan does not look at the bitmaps it fills. */
  lemma SameScan(d: Disk, r: Disk)
    requires Shape(d) && Shape(r) && r.(dataMap := [], inodeMap := []) == d.(dataMap := [], inodeMap := [])
    ensures r.dir == d.dir && r.count == d.count
    ensures forall i: nat :: Scanned(r, i) <==> Scanned(d, i)
    ensures forall i: nat, b: nat :: EntryLists(r, i, b) <==> EntryLists(d, i, b)
  {
    assert r.dir == d.dir && r.inodes == d.inodes && r.count == d.count;
  }

  lemma MarkedIsScan(d: Disk, r: Disk)
    requires Shape(d) && Shape(r) && r.(dataMap := [], inodeMap := []) == d.(dataMap := [], inodeMap := [])
    requires Marks(d, d.count, r)
    ensures BitmapsAgree(r)
  {
    SameScan(d, r);
  }

  /** The cells of the next chunk: one block, consecutive positions. */
  lemma ChunkCell(off: nat, done: nat, i: nat)
    requires LoopPos(off, done) + i < BLOCK
    ensures LoopBlock(off, done + i) == LoopBlock(off, done) && LoopPos(off, done + i) == LoopPos(off, done) + i
  {
    var z := off % BLOCK + done;
    assert z + i == (z / BLOCK) * BLOCK + (z % BLOCK + i);
  }

  /** Where the chunk after a full one starts. */
  lemma ChunkEnd(off: nat, done: nat)
    ensures var m := BLOCK - LoopPos(off, done);
            && LoopPos(off, done + m) == 0
            && LoopBlock(off, done + m) == (off % BLOCK + done) / BLOCK + 1
  {
    var z := off % BLOCK + done;
    assert z + (BLOCK - z % BLOCK) == (z / BLOCK + 1) * BLOCK;
  }

  lemma SameEnds(after: seq<byte>, before: seq<byte>, first: seq<byte>, a: nat, n: nat)
    requires |after| == |before| == |first| && a + n <= |after|
    requires after[a + n..] == before[a + n..] && before[a..] == first[a..]
    ensures after[a + n..] == first[a + n..]
  {
    assert before[a..][n..] == before[a + n..] && first[a..][n..] == first[a + n..];
  }

  lemma PokeNothing(blocks: seq<Block>, idx: BlockList, off: nat)
    ensures Poke(blocks, idx, off, []) == blocks
  {
  }

  lemma SameBlockUsable(idx: BlockList, limit: nat, off: nat, i: nat, j: nat)
    requires Usable(idx, limit, off, i) && LoopBlock(off, i) == LoopBlock(off, j)
    ensures Usable(idx, limit, off, j)
  {
  }

  lemma WriteChunk(blocks: seq<Block>, idx: BlockList, off: nat, buf: seq<byte>, done: nat, m: nat)
    requires done + m <= |buf| && Usable(idx, |blocks|, off, done) && LoopPos(off, done) + m <= BLOCK
    requires forall i :: 0 <= i < done ==> Usable(idx, |blocks|, off, i)
    ensures forall i :: 0 <= i < done + m ==> Usable(idx, |blocks|, off, i)
    ensures var r, b, p := Poke(blocks, idx, off, buf[..done]), idx[LoopBlock(off, done)], LoopPos(off, done);
            Poke(blocks, idx, off, buf[..done + m]) == r[b := r[b][..p] + buf[done..done + m] + r[b][p + m..]]
  {
    hide Poke, LoopBlock, LoopPos;
    forall i | done <= i < done + m
      ensures LoopBlock(off, i) == LoopBlock(off, done) && LoopPos(off, i) == LoopPos(off, done) + i - done
    {
      ChunkCell(off, done, i - done);
    }
    forall i | 0 <= i < done + m ensures Usable(idx, |blocks|, off, i) {
      if i >= done { SameBlockUsable(idx, |blocks|, off, done, i); }
    }
    var part := buf[..done + m];
    assert part[..done] == buf[..done] && part[..done + m] == part && part[done..done + m] == buf[done..done + m];
    PokeChunk(blocks, idx, off, part, done, m, LoopBlock(off, done), LoopPos(off, done));
  }

  /** The first m bytes have arrived in the buffer. */
  ghost predicate Moving(blocks: seq<Block>, idx: BlockList, off: nat, m: nat, buf: seq<byte>) {
    m <= |buf| && forall i :: 0 <= i < m ==>
      Usable(idx, |blocks|, off, i) && buf[i] == blocks[idx[LoopBlock(off, i)]][LoopPos(off, i)]
  }

  lemma MovedChunk(blocks: seq<Block>, idx: BlockList, off: nat, done: nat, m: nat, before: seq<byte>, after: seq<byte>)
    requires Moving(blocks, idx, off, done, before) && |after| == |before| && done + m <= |after|
    requires Usable(idx, |blocks|, off, done) && LoopPos(off, done) + m <= BLOCK
    requires after[..done] == before[..done]
    requires after[done..done + m] == blocks[idx[LoopBlock(off, done)]][LoopPos(off, done)..LoopPos(off, done) + m]
    ensures Moving(blocks, idx, off, done + m, after)
  {
    forall i | 0 <= i < done + m
      ensures Usable(idx, |blocks|, off, i) && after[i] == blocks[idx[LoopBlock(off, i)]][LoopPos(off, i)]
    {
      if i < done {
        assert after[i] == after[..done][i] == before[..done][i];
      } else {
        ChunkCell(off, done, i - done);
        assert after[i] == after[done..done + m][i - done];
      }
    }
  }

  lemma ArrivedIsPeek(blocks: seq<Block>, idx: BlockList, off: nat, m: nat, buf: seq<byte>)
    requires Moving(blocks, idx, off, m, buf)
    ensures buf[..m] == Peek(blocks, idx, off, m)
  {
  }

  lemma {:induction false} MovedIs(idx: BlockList, limit: nat, off: nat, n: nat, m: nat)
    requires m <= n && forall i :: 0 <= i < m ==> Usable(idx, limit, off, i)
    requires m < n ==> !Usable(idx, limit, off, m)
    ensures Moved(idx, limit, off, n) == m
  {
    if m < n {
      MovedIs(idx, limit, off, n - 1, m);
    } else if n > 0 {
      MovedIs(idx, limit, off, n - 1, m - 1);
    }
  }

  /** Byte j of a C string: its characters, then the terminator. */
  function CharAt(s: seq<byte>, j: nat): byte {
    if j < |s| then s[j] else 0
  }

  lemma FirstFreeIs(bits: seq<bool>, limit: nat, i: nat)
    requires i < limit <= |bits| && !bits[i] && forall k :: 0 <= k < i ==> bits[k]
    ensures FirstFree(bits, limit) == i
  {
  }

  lemma NameDiffers(fname: seq<byte>, field: NameField, ch: nat)
    requires 0 !in fname && ch < MAX_FILENAME_LENGTH && ch <= |fname|
    requires fname[..ch] == field[..ch] && CharAt(fname, ch) != field[ch]
    ensures NameOf(field) != fname
  {
    var n := NameOf(field);
    if ch < |n| { assert n[ch] == field[ch]; }
  }

  lemma {:induction false} NameOfPrefix(f: seq<byte>, n: nat)
    requires n <= |f| && 0 !in f[..n] && (n < |f| ==> f[n] == 0)
    ensures NameOf(f) == f[..n]
  {
    if n > 0 {
      assert f[..n][0] == f[0];
      assert f[1..][..n - 1] == f[..n][1..];
      NameOfPrefix(f[1..], n - 1);
    }
  }

  lemma NameIs(fname: seq<byte>, field: NameField)
    requires 0 !in fname && |fname| <= MAX_FILENAME_LENGTH && fname == field[..|fname|]
    requires |fname| < MAX_FILENAME_LENGTH ==> field[|fname|] == 0
    ensures NameOf(field) == fname
  {
    NameOfPrefix(field, |fname|);
  }
}
