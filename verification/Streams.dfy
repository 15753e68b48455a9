/**
 Whole uses of a file: repeated appends, repeated reads and the file position
 that file_read and file_write keep between calls.
*/
module Streams {
  import opened DiskImage
  import opened Contents
  import opened Ownership
  import opened Writing

  /** Chunk sizes that never straddle a block boundary. */
  predicate ChunkSize(c: nat) {
    0 < c && BLOCK % c == 0
  }

  lemma MulMono(c: nat, a: nat, b: nat)
    requires a <= b
    ensures c * a <= c * b
  {
    assert c * (b - a) >= 0;
  }

  lemma MulMod(c: nat, t: nat)
    requires 0 < c
    ensures (c * t) % c == 0
  {
    var q := (c * t) / c;
    if q < t { MulMono(c, q + 1, t); } else { MulMono(c, t, q); }
  }

  /** Multiples of c are at least c apart, and closed under sum and difference. */
  lemma MultiplesApart(c: nat, u: nat, v: nat)
    requires 0 < c && u % c == 0 && v % c == 0 && u < v
    ensures u + c <= v
  {
    var a, b := u / c, v / c;
    if a < b { MulMono(c, a + 1, b); } else { MulMono(c, b, a); }
  }

  lemma MultiplesSum(c: nat, u: nat, v: nat)
    requires 0 < c && u % c == 0 && v % c == 0
    ensures (u + v) % c == 0
  {
    assert u + v == c * (u / c + v / c);
    MulMod(c, u / c + v / c);
  }

  lemma MultiplesDifference(c: nat, u: nat, v: nat)
    requires 0 < c && u % c == 0 && v % c == 0 && u <= v
    ensures (v - u) % c == 0
  {
    var a, b := u / c, v / c;
    if a <= b {
      assert v - u == c * (b - a);
      MulMod(c, b - a);
    } else {
      MulMono(c, b + 1, a);
    }
  }

  lemma {:induction false} MinusBlocks(c: nat, x: nat, q: nat)
    requires ChunkSize(c) && x % c == 0 && q * BLOCK <= x
    ensures (x - q * BLOCK) % c == 0
  {
    if q > 0 {
      MinusBlocks(c, x, q - 1);
      MultiplesDifference(c, BLOCK, x - (q - 1) * BLOCK);
    }
  }

  lemma MultipleInBlock(c: nat, x: nat)
    requires ChunkSize(c) && x % c == 0
    ensures (x % BLOCK) % c == 0
  {
    MinusBlocks(c, x, x / BLOCK);
  }

  /** A multiple of the chunk size leaves room for one chunk in its block. */
  lemma ChunkFits(c: nat, x: nat)
    requires ChunkSize(c) && x % c == 0
    ensures x % BLOCK + c <= BLOCK && c <= BLOCK
  {
    MultipleInBlock(c, x);
    MultiplesApart(c, x % BLOCK, BLOCK);
  }

  lemma NextMultiple(c: nat, x: nat)
    requires 0 < c && x % c == 0
    ensures (x + c) % c == 0
  {
    MultiplesSum(c, x, c);
  }

  function Flatten(chunks: seq<seq<byte>>): seq<byte> {
    if chunks == [] then [] else chunks[0] + Flatten(chunks[1..])
  }

  ghost predicate Appendable(d: Disk, k: nat, c: nat) {
    Valid(d) && InUse(d, k) && Formatted(d, k) && ChunkSize(c) && d.inodes[k].length % c == 0
  }

  lemma AppendFits(d: Disk, k: nat, c: nat)
    requires Appendable(d, k, c)
    ensures var len := d.inodes[k].length;
            Addressable(len, c) && WriteFits(len, len, c) && UndoInRange(d, k, len, c)
  {
    BlocksBounded(d, k);
    ChunkFits(c, d.inodes[k].length);
    UndoUnneeded(d, k, d.inodes[k].length, c);
  }

  /** The disk after appending chunks up to the first failure, and how many. */
  datatype Run = Run(disk: Disk, done: nat)

  ghost predicate Appended(d: Disk, k: nat, c: nat, chunks: seq<seq<byte>>, r: Run)
    requires Appendable(d, k, c)
  {
    && r.done <= |chunks| && Appendable(r.disk, k, c)
    && Content(r.disk, k) == Content(d, k) + Flatten(chunks[..r.done])
    && (r.done < |chunks| ==> NoFreeBlock(r.disk))
    && r.disk.dir == d.dir && r.disk.count == d.count
    && forall l :: InUse(d, l) && l != k ==> InUse(r.disk, l) && Content(r.disk, l) == Content(d, l)
  }

  /** Nothing happens for want of a block, or one chunk more is at the end. */
  lemma AppendOne(d: Disk, k: nat, c: nat, chunk: seq<byte>)
    requires Appendable(d, k, c) && |chunk| == c
    ensures Addressable(d.inodes[k].length, c) && UndoInRange(d, k, d.inodes[k].length, c)
    ensures var w := WriteData(d, k, d.inodes[k].length, chunk);
            if w.value < 0 then w.disk == d && NoFreeBlock(d)
            else Appended(d, k, c, [chunk], Run(w.disk, 1))
  {
    hide NamesUnique, InodesUnique, BlocksUnique, ListOk, Formatted, WriteFits, WriteData, Content;
    AppendFits(d, k, c);
    AppendMeaning(d, k, chunk);
    WriteMeaning(d, k, d.inodes[k].length, chunk);
    NextMultiple(c, d.inodes[k].length);
    assert Flatten([chunk][..1]) == chunk by {
      assert [chunk][..1] == [chunk] && [chunk][1..] == [];
      assert chunk + [] == chunk;
    }
  }

  lemma AppendedJoin(d: Disk, k: nat, c: nat, chunks: seq<seq<byte>>, mid: Disk, r: Run)
    requires Appendable(d, k, c) && chunks != [] && Appended(d, k, c, [chunks[0]], Run(mid, 1))
    requires Appended(mid, k, c, chunks[1..], r)
    ensures Appended(d, k, c, chunks, Run(r.disk, r.done + 1))
  {
    hide NamesUnique, InodesUnique, BlocksUnique, ListOk, Formatted, Content;
    assert [chunks[0]][..1] == [chunks[0]];
    assert Flatten([chunks[0]]) == chunks[0] + Flatten([chunks[0]][1..]) == chunks[0];
    FlattenStep(Content(d, k), chunks, r.done);
  }

  /** file_write of each chunk at the end of the file, until one fails. */
  ghost function AppendAll(d: Disk, k: nat, c: nat, chunks: seq<seq<byte>>): (r: Run)
    requires Appendable(d, k, c) && forall i :: 0 <= i < |chunks| ==> |chunks[i]| == c
    ensures Appended(d, k, c, chunks, r)
    decreases |chunks|
  {
    hide Appendable, Content, WriteData;
    if chunks == [] then Run(d, 0)
    else
      AppendOne(d, k, c, chunks[0]);
      var w := WriteData(d, k, d.inodes[k].length, chunks[0]);
      if w.value < 0 then Run(d, 0)
      else
        var rest := AppendAll(w.disk, k, c, chunks[1..]);
        AppendedJoin(d, k, c, chunks, w.disk, rest);
        Run(rest.disk, rest.done + 1)
  }

  /** The run that appends the chunks from n on, after n chunks. */
  ghost function Rest(d: Disk, k: nat, c: nat, chunks: seq<seq<byte>>, n: nat): Run
    requires Appendable(d, k, c) && n <= |chunks| && forall i :: 0 <= i < |chunks| ==> |chunks[i]| == c
  {
    var r := AppendAll(d, k, c, chunks[n..]);
    Run(r.disk, r.done + n)
  }

  /** `r` is the disk after one more chunk, or the same disk after a failed write. */
  ghost predicate Tried(d: Disk, k: nat, c: nat, chunk: seq<byte>, r: Disk, ok: bool)
    requires Appendable(d, k, c) && |chunk| == c
  {
    AppendFits(d, k, c);
    var w := WriteData(d, k, d.inodes[k].length, chunk);
    r == w.disk && (ok <==> w.value >= 0)
  }

  lemma TryStep(d: Disk, k: nat, c: nat, chunk: seq<byte>)
    requires Appendable(d, k, c) && |chunk| == c
    ensures k < |d.inodes| && d.inodes[k].length < MAX_DATA_BLOCKS * BLOCK
    ensures Addressable(d.inodes[k].length, c) && UndoInRange(d, k, d.inodes[k].length, c)
    ensures var w := WriteData(d, k, d.inodes[k].length, chunk);
            && k < |w.disk.inodes| && Appendable(w.disk, k, c)
            && (if w.value < 0 then w.value == -1 && w.disk == d
                else w.value == c && w.disk.inodes[k].length == d.inodes[k].length + c)
  {
    hide NamesUnique, InodesUnique, BlocksUnique, ListOk, Formatted, WriteFits, Content, WriteData;
    LengthBounded(d, k);
    AppendFits(d, k, c);
    AppendOne(d, k, c, chunk);
    WriteMeaning(d, k, d.inodes[k].length, chunk);
  }

  lemma RestStart(d: Disk, k: nat, c: nat, chunks: seq<seq<byte>>)
    requires Appendable(d, k, c) && forall i :: 0 <= i < |chunks| ==> |chunks[i]| == c
    ensures k < |d.inodes| && Rest(d, k, c, chunks, 0) == AppendAll(d, k, c, chunks)
    ensures Rest(d, k, c, chunks, |chunks|) == Run(d, |chunks|)
  {
    assert chunks[0..] == chunks;
    assert chunks[|chunks|..] == [];
  }

  lemma RestStep(d: Disk, k: nat, c: nat, chunks: seq<seq<byte>>, n: nat, r: Disk, ok: bool)
    requires Appendable(d, k, c) && n < |chunks| && forall i :: 0 <= i < |chunks| ==> |chunks[i]| == c
    requires Appendable(r, k, c) && Tried(d, k, c, chunks[n], r, ok)
    ensures Rest(d, k, c, chunks, n) == if ok then Rest(r, k, c, chunks, n + 1) else Run(r, n)
  {
    hide Appendable, Content, WriteData;
    TryStep(d, k, c, chunks[n]);
    assert chunks[n..][1..] == chunks[n + 1..];
  }

  lemma FlattenStep(s: seq<byte>, chunks: seq<seq<byte>>, n: nat)
    requires chunks != [] && n <= |chunks| - 1
    ensures s + chunks[0] + Flatten(chunks[1..][..n]) == s + Flatten(chunks[..n + 1])
  {
    assert chunks[..n + 1][1..] == chunks[1..][..n];
  }

  /** n calls of file_read with size c from position `pos`. */
  ghost function ReadChunks(d: Disk, k: nat, pos: nat, c: nat, n: nat): seq<byte>
    requires Valid(d) && InUse(d, k) && ReadableAt(d, k, pos, c)
    decreases n
  {
    if n == 0 then []
    else
      ReadStep(d, k, pos, c);
      ReadBytes(d, k, pos, c) + ReadChunks(d, k, pos + ReadCount(d, k, pos, c), c, n - 1)
  }

  /** A position a chunked reader can be at. */
  ghost predicate ReadableAt(d: Disk, k: nat, pos: nat, c: nat)
    requires k < |d.inodes|
  {
    ChunkSize(c) && pos <= d.inodes[k].length && (pos % c == 0 || pos == d.inodes[k].length)
  }

  lemma ReadStep(d: Disk, k: nat, pos: nat, c: nat)
    requires Valid(d) && InUse(d, k) && ReadableAt(d, k, pos, c)
    ensures Addressable(pos, c)
    ensures var r := Available(d.inodes[k].length, pos, c);
            && ReadCount(d, k, pos, c) == r && ReadableAt(d, k, pos + r, c)
            && ReadBytes(d, k, pos, c) == Content(d, k)[pos..pos + r]
            && (pos + r < d.inodes[k].length ==> r == c)
  {
    ValidBacked(d, k);
    ChunkFits(c, 0);
    if pos % c == 0 {
      ChunkFits(c, pos);
      NextMultiple(c, pos);
    }
    ReadIsSlice(d, k, pos, c);
  }

  /** Such a read is one that read_data can do. */
  lemma ReadInBounds(d: Disk, k: nat, pos: nat, c: nat)
    requires Valid(d) && InUse(d, k) && ReadableAt(d, k, pos, c)
    ensures k < |d.inodes| && ReadInRange(d, k, pos, c) && ReadCount(d, k, pos, c) >= 0 && pos < 0x1_0000_0000
  {
    ReadStep(d, k, pos, c);
    LengthBounded(d, k);
  }

  /** One read more adds one chunk at the end. */
  lemma {:induction false} ReadChunksSnoc(d: Disk, k: nat, pos: nat, c: nat, n: nat)
    requires Valid(d) && InUse(d, k) && ReadableAt(d, k, pos, c)
    ensures var at := pos + |ReadChunks(d, k, pos, c, n)|;
            && k < |d.inodes| && ReadableAt(d, k, at, c) && ReadInRange(d, k, at, c)
            && ReadChunks(d, k, pos, c, n + 1) == ReadChunks(d, k, pos, c, n) + ReadBytes(d, k, at, c)
    decreases n
  {
    hide Valid, InUse, ReadableAt, ReadCount, ReadBytes, ReadChunks, ReadInRange;
    FirstChunk(d, k, pos, c, n + 1);
    if n == 0 {
      NoChunks(d, k, pos, c);
      NoChunks(d, k, pos + |ReadBytes(d, k, pos, c)|, c);
    } else {
      FirstChunk(d, k, pos, c, n);
      var next := pos + |ReadBytes(d, k, pos, c)|;
      ReadChunksSnoc(d, k, next, c, n - 1);
      var data := ReadChunks(d, k, next, c, n - 1);
      Regroup(ReadBytes(d, k, pos, c), data, ReadBytes(d, k, next + |data|, c));
    }
  }

  lemma NoChunks(d: Disk, k: nat, pos: nat, c: nat)
    requires Valid(d) && InUse(d, k) && ReadableAt(d, k, pos, c)
    ensures k < |d.inodes| && ReadChunks(d, k, pos, c, 0) == []
  {
  }

  lemma FirstChunk(d: Disk, k: nat, pos: nat, c: nat, n: nat)
    requires Valid(d) && InUse(d, k) && ReadableAt(d, k, pos, c) && 0 < n
    ensures k < |d.inodes| && ReadInRange(d, k, pos, c)
    ensures var chunk := ReadBytes(d, k, pos, c);
            ReadableAt(d, k, pos + |chunk|, c)
            && ReadChunks(d, k, pos, c, n) == chunk + ReadChunks(d, k, pos + |chunk|, c, n - 1)
  {
    hide Valid, ReadableAt, ReadCount, ReadBytes;
    ReadStep(d, k, pos, c);
    ReadInBounds(d, k, pos, c);
  }
  lemma Regroup(a: seq<byte>, b: seq<byte>, c: seq<byte>)
    ensures a + (b + c) == (a + b) + c
  {
  }


  /** The bytes n reads of size c can cover. */
  function Covered(c: nat, n: nat): nat {
    if n == 0 then 0 else c + Covered(c, n - 1)
  }

  /** Chunked reading yields the file from `pos` on, and then nothing more. */
  lemma {:induction false} ReadChunksIsSlice(d: Disk, k: nat, pos: nat, c: nat, n: nat)
    requires Valid(d) && InUse(d, k) && ReadableAt(d, k, pos, c)
    ensures ReadChunks(d, k, pos, c, n) == Content(d, k)[pos..pos + Available(d.inodes[k].length, pos, Covered(c, n))]
    decreases n
  {
    hide Valid, Content, ReadBytes, ReadCount;
    if n > 0 {
      ReadStep(d, k, pos, c);
      var r := ReadCount(d, k, pos, c);
      ReadChunksIsSlice(d, k, pos + r, c, n - 1);
      var s := Available(d.inodes[k].length, pos + r, Covered(c, n - 1));
      assert Available(d.inodes[k].length, pos, Covered(c, n)) == r + s;
      assert Content(d, k)[pos..pos + r] + Content(d, k)[pos + r..pos + r + s] == Content(d, k)[pos..pos + r + s];
    }
  }

  /** The single whole-file load of execute reads what chunked reads read. */
  lemma WholeLoadIsChunks(d: Disk, k: nat, c: nat, n: nat)
    requires Valid(d) && InUse(d, k) && ChunkSize(c) && Covered(c, n) >= d.inodes[k].length
    ensures Addressable(0, d.inodes[k].length) && ReadableAt(d, k, 0, c)
    ensures ReadCount(d, k, 0, d.inodes[k].length) == d.inodes[k].length
    ensures ReadBytes(d, k, 0, d.inodes[k].length) == ReadChunks(d, k, 0, c, n) == Content(d, k)
  {
    ValidBacked(d, k);
    ReadIsSlice(d, k, 0, d.inodes[k].length);
    ReadChunksIsSlice(d, k, 0, c, n);
  }

  ghost predicate Creatable(d: Disk, name: seq<byte>) {
    Valid(d) && LegalName(name) && Lookup(d, name) == d.count && CreateFile(d, name).value >= 0
  }

  /** The inode of the file that CreateFile makes. */
  ghost function NewInode(d: Disk, name: seq<byte>): (k: nat)
    requires Creatable(d, name)
  {
    CreateFile(d, name).disk.dir[d.count].inode
  }

  lemma NewFileAppendable(d: Disk, name: seq<byte>, c: nat)
    requires Creatable(d, name) && ChunkSize(c)
    ensures Appendable(CreateFile(d, name).disk, NewInode(d, name), c)
    ensures Content(CreateFile(d, name).disk, NewInode(d, name)) == []
    ensures Lookup(CreateFile(d, name).disk, name) == d.count
  {
    CreateKeepsValid(d, name);
    assert |Content(CreateFile(d, name).disk, NewInode(d, name))| == 0;
  }

  lemma CreateOthersKept(d: Disk, name: seq<byte>, l: nat)
    requires Creatable(d, name) && InUse(d, l)
    ensures var r := CreateFile(d, name).disk;
            l != NewInode(d, name) && InUse(r, l) && Content(r, l) == Content(d, l)
  {
    hide NamesUnique, InodesUnique, BlocksUnique, ListOk, Formatted, Lookup, NameOf;
    var r := CreateFile(d, name).disk;
    assert r.inodes[l] == d.inodes[l] && r.blocks == d.blocks;
    forall x: nat | x < d.inodes[l].length ensures ByteAt(r, l, x) == ByteAt(d, l, x) {
    }
  }

  lemma OthersKept(d: Disk, name: seq<byte>, c: nat, chunks: seq<seq<byte>>)
    requires Creatable(d, name) && ChunkSize(c) && forall i :: 0 <= i < |chunks| ==> |chunks[i]| == c
    ensures var r := WriteNew(d, name, c, chunks).disk;
            && Shape(r)
            && forall l :: InUse(d, l) ==> InUse(r, l) && Content(r, l) == Content(d, l)
  {
    hide NamesUnique, InodesUnique, BlocksUnique, ListOk, Formatted, AppendAll, CreateFile, Lookup, Content, NewInode;
    NewFileAppendable(d, name, c);
    var r := WriteNew(d, name, c, chunks).disk;
    forall l | InUse(d, l) ensures InUse(r, l) && Content(r, l) == Content(d, l) {
      CreateOthersKept(d, name, l);
    }
  }

  /** The disk after creating a file and appending chunks to it. */
  ghost function WriteNew(d: Disk, name: seq<byte>, c: nat, chunks: seq<seq<byte>>): (r: Run)
    requires Creatable(d, name) && ChunkSize(c) && forall i :: 0 <= i < |chunks| ==> |chunks[i]| == c
  {
    NewFileAppendable(d, name, c);
    AppendAll(CreateFile(d, name).disk, NewInode(d, name), c, chunks)
  }

  /** Create a file, append chunks, read it back with another chunk size: the
      bytes come back in order, and reading on returns nothing. */
  lemma RoundTrip(d: Disk, name: seq<byte>, c: nat, chunks: seq<seq<byte>>, e: nat, n: nat)
    requires Creatable(d, name)
    requires ChunkSize(c) && ChunkSize(e) && forall i :: 0 <= i < |chunks| ==> |chunks[i]| == c
    ensures var k, r := NewInode(d, name), WriteNew(d, name, c, chunks);
            && (r.done == |chunks| || NoFreeBlock(r.disk))
            && Lookup(r.disk, name) == d.count && r.disk.dir[d.count].inode == k
            && ReadableAt(r.disk, k, 0, e)
            && (Covered(e, n) >= r.disk.inodes[k].length ==>
                  ReadChunks(r.disk, k, 0, e, n) == Flatten(chunks[..r.done]))
            && Addressable(r.disk.inodes[k].length, e) && ReadCount(r.disk, k, r.disk.inodes[k].length, e) == 0
  {
    hide NamesUnique, InodesUnique, BlocksUnique, ListOk, Formatted, AppendAll, ReadChunks, CreateFile, ReadCount,
         ReadBytes, Addressable;
    NewFileAppendable(d, name, c);
    var created := CreateFile(d, name).disk;
    var k := NewInode(d, name);
    var r := WriteNew(d, name, c, chunks);
    SameLookup(created, r.disk, name);
    var content := Content(r.disk, k);
    assert content == [] + Flatten(chunks[..r.done]) == Flatten(chunks[..r.done]);
    ReadChunksIsSlice(r.disk, k, 0, e, n);
    assert content[0..|content|] == content;
    ReadStep(r.disk, k, r.disk.inodes[k].length, e);
  }

  lemma SameLookup(d: Disk, r: Disk, name: seq<byte>)
    requires Shape(d) && Shape(r) && d.dir == r.dir && d.count == r.count
    ensures Lookup(d, name) == Lookup(r, name)
  {
    SameLookupFrom(d, r, name, 0);
  }

  lemma {:induction false} SameLookupFrom(d: Disk, r: Disk, name: seq<byte>, k: nat)
    requires Shape(d) && Shape(r) && d.dir == r.dir && d.count == r.count && k <= d.count
    ensures LookupFrom(d, name, k) == LookupFrom(r, name, k)
    decreases d.count - k
  {
    if k < d.count { SameLookupFrom(d, r, name, k + 1); }
  }
}
