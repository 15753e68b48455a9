/**
 A process's file descriptors: open, close, and reads and writes through the
 file position.
*/
module Files {
  import opened DiskImage
  import opened Contents
  import opened Ownership
  import opened Writing
  import opened Streams
  import FileSystem

  const FILE_DESCRIPTOR_SIZE: nat := 8
  const FIRST_READABLE_FILE: nat := 2
  const FS_TYPE_RTC: nat := 0
  const FS_TYPE_DIR: nat := 1
  const RTC_MAX_FREQ: nat := 512
  const DEFAULT_RTC_FREQ: nat := 2
  const MOUSE: seq<byte> := [109, 111, 117, 115, 101]
  const U32: nat := 0x1_0000_0000

  datatype Driver = NoDriver | Terminal | Rtc | Regular | Directory | Mouse

  /** A descriptor; `present` and `rtc` are the two low flag bits. */
  datatype FileEntry = FileEntry(driver: Driver, inode: nat, position: int, present: bool, rtc: bool)

  /** What a dispatched call returned, or the driver outside this model that got
      the call. */
  datatype Transfer = Done(count: int) | Passed(driver: Driver)

  const STDIN_FD: nat := 0
  const STDOUT_FD: nat := 1
  const STDIO: FileEntry := FileEntry(Terminal, 0, 0, true, false)

  /** A 32-bit position as the unsigned offset the file system sees. */
  function Offset(position: int): nat {
    position % U32
  }

  lemma OffsetSmall(position: int)
    requires 0 <= position < U32
    ensures Offset(position) == position
  {
  }

  /** The first free descriptor a file can have, or the table's size. */
  function FirstClosed(files: seq<FileEntry>, k: nat): (fd: nat)
    requires k <= |files|
    ensures k <= fd <= |files| && (fd < |files| ==> !files[fd].present)
    ensures forall j :: k <= j < fd ==> files[j].present
    decreases |files| - k
  {
    if k == |files| || !files[k].present then k else FirstClosed(files, k + 1)
  }

  /** A descriptor in use for an entry: by its kind the RTC at 2 Hz, the
      directory from its first entry or the file from its first byte; or else the
      mouse.  An entry of another kind leaves the driver as it was. */
  predicate OpenFor(slot: FileEntry, f: FileEntry, entry: Dentry, mouse: bool) {
    && f.present && f.inode == entry.inode
    && f.driver == (if mouse then Mouse else if entry.kind == 0 then Rtc else if entry.kind == 1 then Directory
                    else if entry.kind == 2 then Regular else slot.driver)
    && f.position == (if !mouse && entry.kind == 0 then 256 else 0)
    && f.rtc == (slot.rtc || (!mouse && entry.kind == 0))
  }

  lemma {:induction false} FirstClosedAgain(files: seq<FileEntry>, closed: FileEntry, k: nat)
    requires k <= |files| && FirstClosed(files, k) < |files| && !closed.present
    ensures FirstClosed(files[FirstClosed(files, k) := closed], k) == FirstClosed(files, k)
    decreases |files| - k
  {
    if files[k].present { FirstClosedAgain(files, closed, k + 1); }
  }

  lemma Overwrite(files: seq<FileEntry>, fd: nat, first: FileEntry, second: FileEntry)
    requires fd < |files|
    ensures files[fd := first][fd := second] == files[fd := second]
  {
  }

  /** The table after a file was opened and closed again. */
  function UsedOnce(files: seq<FileEntry>): seq<FileEntry>
    requires FIRST_READABLE_FILE < |files| && FirstClosed(files, FIRST_READABLE_FILE) < |files|
  {
    files[FirstClosed(files, FIRST_READABLE_FILE) := FileEntry(Regular, 0, 0, false, false)]
  }

  /** The descriptor sys_open makes for a directory entry in a free slot. */
  function Opened(slot: FileEntry, entry: Dentry, mouse: bool): FileEntry {
    var e := slot.(inode := entry.inode, position := 0, present := true);
    if mouse then e.(driver := Mouse)
    else if entry.kind == FS_TYPE_RTC then e.(rtc := true, position := RTC_MAX_FREQ / DEFAULT_RTC_FREQ, driver := Rtc)
    else if entry.kind == FS_TYPE_DIR then e.(driver := Directory)
    else if entry.kind == FS_TYPE_FILE then e.(driver := Regular)
    else e
  }

  /** The name that dir_read finds at a position.  In an empty directory the
      bound wraps around, and the unused entries are read. */
  function EntryName(d: Disk, pos: nat): seq<byte>
    requires Shape(d) && (d.count == 0 ==> pos < NUM_DENTRIES)
  {
    if pos < d.count || d.count == 0 then NameOf(d.dir[pos].name) else []
  }

  class Process {
    const files: array<FileEntry>
    const fs: FileSystem.FileSystem

    ghost predicate Ok()
      reads this, fs, fs.dir, fs.inodes, fs.blocks, fs.dataMap, fs.inodeMap
    {
      files.Length == FILE_DESCRIPTOR_SIZE && fs.Ok()
    }

    constructor (fs: FileSystem.FileSystem)
      requires fs.Ok()
      ensures Ok() && this.fs == fs && fresh(files)
      ensures files[..] == [STDIO, STDIO] + seq(6, _ => FileEntry(NoDriver, 0, 0, false, false))
    {
      this.fs := fs;
      files := new FileEntry[FILE_DESCRIPTOR_SIZE](i => if i < 2 then STDIO else FileEntry(NoDriver, 0, 0, false, false));
    }

    // -------------------------------------------------------------- regular files

    method FileRead(fd: nat, buf: array<byte>, n: nat) returns (r: int)
      requires Ok() && fd < FILE_DESCRIPTOR_SIZE && n <= buf.Length
      requires ReadInRange(fs.Image(), files[fd].inode, Offset(files[fd].position), n)
      modifies files, buf
      ensures r == ReadCount(fs.Image(), old(files[fd].inode), Offset(old(files[fd].position)), n)
      ensures buf[..if r < 0 then 0 else r] == ReadBytes(fs.Image(), old(files[fd].inode), Offset(old(files[fd].position)), n)
      ensures files[..] == old(files[..])[fd := old(files[fd]).(position := old(files[fd].position) + r)]
    {
      var before := files[..];
      r := fs.ReadData(files[fd].inode, files[fd].position % U32, buf, n);
      assert files[..] == before;
      files[fd] := files[fd].(position := files[fd].position + r);
    }

    /** A failed write returns -1 and moves the position back by one. */
    method FileWrite(fd: nat, buf: seq<byte>) returns (r: int)
      requires Ok() && fd < FILE_DESCRIPTOR_SIZE
      requires Addressable(Offset(files[fd].position), |buf|)
      requires UndoInRange(fs.Image(), files[fd].inode, Offset(files[fd].position), |buf|)
      modifies files, fs.inodes, fs.dataMap, fs.blocks
      ensures Ok() && Outcome(fs.Image(), r)
                   == WriteData(old(fs.Image()), old(files[fd].inode), Offset(old(files[fd].position)), buf)
      ensures files[..] == old(files[..])[fd := old(files[fd]).(position := old(files[fd].position) + r)]
    {
      var before := files[..];
      r := fs.WriteData(files[fd].inode, files[fd].position % U32, buf);
      assert files[..] == before;
      files[fd] := files[fd].(position := files[fd].position + r);
    }

    // -------------------------------------------------------------- directories

    /** The name at the position, at most 32 bytes and a terminator if shorter,
        whatever size the caller gives; the position always moves on. */
    method DirRead(fd: nat, buf: array<byte>, nbytes: int) returns (r: nat)
      requires Ok() && fd < FILE_DESCRIPTOR_SIZE && buf.Length >= MAX_FILENAME_LENGTH
      requires fs.count == 0 ==> Offset(files[fd].position) < NUM_DENTRIES
      modifies files, buf
      ensures var name := EntryName(fs.Image(), Offset(old(files[fd].position)));
              r == |name| && buf[..r] == name
      ensures files[..] == old(files[..])[fd := old(files[fd]).(position := old(files[fd].position) + 1)]
    {
      hide NameOf;
      var before := files[..];
      var found, dentry := fs.ReadDentryByIndex(files[fd].position % U32);
      r := 0;
      if !found {
        files[fd] := files[fd].(position := files[fd].position + 1);
        return;
      }
      var maxLength := MAX_FILENAME_LENGTH;
      if nbytes < MAX_FILENAME_LENGTH {
        maxLength := nbytes;
      }
      r := CopyEntryName(dentry.name, buf);
      assert files[..] == before;
      files[fd] := files[fd].(position := files[fd].position + 1);
    }

    /** The copy loop of dir_read. */
    static method CopyEntryName(name: NameField, buf: array<byte>) returns (r: nat)
      requires buf.Length >= MAX_FILENAME_LENGTH
      modifies buf
      ensures r == |NameOf(name)| && buf[..r] == NameOf(name)
    {
      r := 0;
      var i := 0;
      while i < MAX_FILENAME_LENGTH
        invariant 0 <= i == r <= MAX_FILENAME_LENGTH && buf[..i] == name[..i] && 0 !in name[..i]
      {
        buf[i] := name[i];
        if name[i] == 0 {
          FileSystem.NameOfPrefix(name, i);
          return;
        }
        r := r + 1;
        i := i + 1;
      }
      FileSystem.NameOfPrefix(name, i);
    }

    // -------------------------------------------------------------- dispatch

    /** The descriptor is open and lets data through in this direction. */
    ghost predicate Serves(fd: int, closedEnd: nat)
      requires files.Length == FILE_DESCRIPTOR_SIZE
      reads files
    {
      0 <= fd < FILE_DESCRIPTOR_SIZE && fd != closedEnd && files[fd].present
    }

    /** read: standard output and closed descriptors fail and change nothing,
        files and directories are read, other drivers get the call. */
    method SysRead(fd: int, buf: array<byte>, n: nat) returns (t: Transfer)
      requires Ok()
      requires Serves(fd, STDOUT_FD) && files[fd].driver == Regular ==>
        n <= buf.Length && ReadInRange(fs.Image(), files[fd].inode, Offset(files[fd].position), n)
      requires Serves(fd, STDOUT_FD) && files[fd].driver == Directory ==>
        buf.Length >= MAX_FILENAME_LENGTH && (fs.count == 0 ==> Offset(files[fd].position) < NUM_DENTRIES)
      modifies files, buf
      ensures !old(Serves(fd, STDOUT_FD)) ==> t == Done(-1) && unchanged(files) && unchanged(buf)
      ensures fd == 1 || !(0 <= fd < 8) || !old(files[fd].present) ==> t == Done(-1) && unchanged(files) && unchanged(buf)
      ensures old(Serves(fd, STDOUT_FD)) ==>
        var f := old(files[..])[fd];
        var pos := Offset(f.position);
        if f.driver == Regular then
          && t == Done(ReadCount(fs.Image(), f.inode, pos, n))
          && buf[..if t.count < 0 then 0 else t.count] == ReadBytes(fs.Image(), f.inode, pos, n)
          && files[..] == old(files[..])[fd := f.(position := f.position + t.count)]
        else if f.driver == Directory then
          var name := EntryName(fs.Image(), pos);
          && t == Done(|name|) && buf[..|name|] == name
          && files[..] == old(files[..])[fd := f.(position := f.position + 1)]
        else t == Passed(f.driver) && unchanged(files) && unchanged(buf)
    {
      hide ReadInRange, ReadCount, ReadBytes, EntryName, Offset;
      if fd >= FILE_DESCRIPTOR_SIZE || fd < 0 || fd == STDOUT_FD {
        return Done(-1);
      } else if !files[fd].present {
        return Done(-1);
      }
      match files[fd].driver
      case Regular =>
        var r := FileRead(fd, buf, n);
        t := Done(r);
      case Directory =>
        var r := DirRead(fd, buf, n);
        t := Done(r);
      case _ => t := Passed(files[fd].driver);
    }

    /** write: standard input and closed descriptors fail, and so do
        directories; files are written. */
    method SysWrite(fd: int, buf: seq<byte>) returns (t: Transfer)
      requires Ok()
      requires Serves(fd, STDIN_FD) && files[fd].driver == Regular ==>
        && Addressable(Offset(files[fd].position), |buf|)
        && UndoInRange(fs.Image(), files[fd].inode, Offset(files[fd].position), |buf|)
      modifies files, fs.inodes, fs.dataMap, fs.blocks
      ensures Ok()
      ensures fd == 0 || !(0 <= fd < 8) || !old(files[fd].present) || old(files[fd].driver) == Directory ==>
        t == Done(-1) && files[..] == old(files[..]) && fs.Image() == old(fs.Image())
      ensures !(old(Serves(fd, STDIN_FD)) && old(files[..])[fd].driver == Regular) ==>
        && files[..] == old(files[..]) && fs.Image() == old(fs.Image())
        && t == if old(Serves(fd, STDIN_FD)) && old(files[..])[fd].driver != Directory
                then Passed(old(files[..])[fd].driver) else Done(-1)
      ensures old(Serves(fd, STDIN_FD)) && old(files[..])[fd].driver == Regular ==>
        var f := old(files[..])[fd];
        && t.Done? && Outcome(fs.Image(), t.count) == WriteData(old(fs.Image()), f.inode, Offset(f.position), buf)
        && files[..] == old(files[..])[fd := f.(position := f.position + t.count)]
    {
      if fd >= FILE_DESCRIPTOR_SIZE || fd < 0 || fd == STDIN_FD {
        return Done(-1);
      } else if !files[fd].present {
        return Done(-1);
      }
      match files[fd].driver
      case Regular =>
        var r := FileWrite(fd, buf);
        t := Done(r);
      case Directory => t := Done(-1);
      case _ => t := Passed(files[fd].driver);
    }

    // -------------------------------------------------------------- open and close

    /** Give the entry the first free descriptor. */
    method FillDescriptor(entry: Dentry, mouse: bool) returns (r: int)
      requires files.Length == FILE_DESCRIPTOR_SIZE
      modifies files
      ensures var fd := FirstClosed(old(files[..]), FIRST_READABLE_FILE);
              if fd == FILE_DESCRIPTOR_SIZE then r == -1 && files[..] == old(files[..])
              else r == fd && files[..] == old(files[..])[fd := Opened(old(files[fd]), entry, mouse)]
      ensures r >= 0 ==> r < FILE_DESCRIPTOR_SIZE && OpenFor(old(files[..])[r], files[..][r], entry, mouse)
    {
      var idx := FIRST_READABLE_FILE;
      while idx < FILE_DESCRIPTOR_SIZE
        invariant FIRST_READABLE_FILE <= idx <= FILE_DESCRIPTOR_SIZE && files[..] == old(files[..])
        invariant FirstClosed(files[..], FIRST_READABLE_FILE) == FirstClosed(files[..], idx)
      {
        if !files[idx].present {
          files[idx] := files[idx].(inode := entry.inode, position := 0, present := true);
          if mouse {
            files[idx] := files[idx].(driver := Mouse);
          } else if entry.kind == FS_TYPE_RTC {
            files[idx] := files[idx].(rtc := true, position := RTC_MAX_FREQ / DEFAULT_RTC_FREQ, driver := Rtc);
          } else if entry.kind == FS_TYPE_DIR {
            files[idx] := files[idx].(driver := Directory);
          } else if entry.kind == FS_TYPE_FILE {
            files[idx] := files[idx].(driver := Regular);
          }
          return idx;
        }
        idx := idx + 1;
      }
      r := -1;
    }

    /** Open a file, creating it if there is none of that name.  `garbage` is
        the uninitialized entry the mouse descriptor is filled from. */
    method SysOpen(filename: seq<byte>, garbage: Dentry) returns (r: int)
      requires Ok() && 0 !in filename
      requires filename != [] && filename != MOUSE && Lookup(fs.Image(), filename) == fs.count ==>
        |filename| < MAX_FILENAME_LENGTH
      modifies files, fs`count, fs.dir, fs.inodes, fs.dataMap, fs.inodeMap
      ensures Ok()
      ensures var d := old(fs.Image());
              var missing := filename != [] && filename != MOUSE && Lookup(d, filename) == d.count;
              var made := if missing then CreateFile(d, filename) else Outcome(d, Lookup(d, filename));
              var fd := FirstClosed(old(files[..]), FIRST_READABLE_FILE);
              && fs.Image() == made.disk
              && (if filename == [] || (missing && made.value == -1) || fd == FILE_DESCRIPTOR_SIZE
                  then r == -1 && files[..] == old(files[..])
                  else
                    && r == fd
                    && var entry := if filename == MOUSE then garbage else fs.Image().dir[made.value];
                    && files[..] == old(files[..])[fd := Opened(old(files[fd]), entry, filename == MOUSE)]
                    && OpenFor(old(files[..])[fd], files[..][fd], entry, filename == MOUSE))
      ensures Valid(old(fs.Image())) ==> Valid(fs.Image())
    {
      ghost var d := fs.Image();
      if filename == [] {
        return -1;
      }
      var entry := garbage;
      if filename != MOUSE {
        var i := fs.ReadDentryByName(filename);
        if i == -1 {
          i := fs.CreateNewFile(filename);
          if Valid(d) { CreateKeepsValid(d, filename); }
          if i == -1 {
            return -1;
          }
        }
        entry := fs.dir[i];
      }
      r := FillDescriptor(entry, filename == MOUSE);
    }

    method SysClose(fd: int) returns (r: int)
      requires Ok()
      modifies files
      ensures Ok()
      ensures var ok := FIRST_READABLE_FILE <= fd < FILE_DESCRIPTOR_SIZE && old(files[..])[fd].present;
              && r == (if ok then 0 else -1)
              && files[..] == if ok then old(files[..])[fd := FileEntry(old(files[..])[fd].driver, 0, 0, false, false)]
                              else old(files[..])
    {
      if fd < FIRST_READABLE_FILE || fd >= FILE_DESCRIPTOR_SIZE {
        return -1;
      } else if files[fd].present {
        files[fd] := files[fd].(present := false, rtc := false);
        files[fd] := files[fd].(inode := 0);
        files[fd] := files[fd].(position := 0);
        return 0;
      }
      r := -1;
    }

    /** What halt does with the descriptors: no file stays open, and standard
        input and output stay as they are. */
    method CloseAll()
      requires Ok()
      modifies files
      ensures Ok()
      ensures forall fd :: 0 <= fd < FILE_DESCRIPTOR_SIZE ==>
        var f := old(files[fd]);
        files[fd] == if fd < FIRST_READABLE_FILE || !f.present then f
                     else f.(present := false, position := if f.driver == Rtc then 0 else f.position)
    {
      var i := FIRST_READABLE_FILE;
      while i < FILE_DESCRIPTOR_SIZE
        invariant FIRST_READABLE_FILE <= i <= FILE_DESCRIPTOR_SIZE
        invariant forall fd :: 0 <= fd < FILE_DESCRIPTOR_SIZE ==>
          var f := old(files[fd]);
          files[fd] == if fd < FIRST_READABLE_FILE || fd >= i || !f.present then f
                       else f.(present := false, position := if f.driver == Rtc then 0 else f.position)
      {
        if files[i].present {
          files[i] := files[i].(present := false);
          if files[i].driver == Rtc {
            files[i] := files[i].(position := 0);
          }
        }
        i := i + 1;
      }
    }

    // -------------------------------------------------------------- whole uses of a directory

    /** The descriptor is open on a directory. */
    ghost predicate OpenOnDirectory(fd: nat)
      requires files.Length == FILE_DESCRIPTOR_SIZE
      reads files
    {
      FIRST_READABLE_FILE <= fd < FILE_DESCRIPTOR_SIZE && files[fd].present && files[fd].driver == Directory
    }

    /** One read of a directory. */
    method ListName(fd: nat) returns (name: seq<byte>)
      requires Ok() && OpenOnDirectory(fd) && 0 <= files[fd].position < U32 && Listable(fs.Image(), files[fd].position + 1)
      modifies files
      ensures name == EntryName(fs.Image(), old(files[fd].position))
      ensures files[..] == old(files[..])[fd := old(files[fd]).(position := old(files[fd].position) + 1)]
    {
      OffsetSmall(files[fd].position);
      hide EntryName, Offset;
      var buf := new byte[MAX_FILENAME_LENGTH];
      var t := SysRead(fd, buf, MAX_FILENAME_LENGTH);
      name := buf[..t.count];
    }

    /** n reads of a directory from its start. */
    method ListNames(fd: nat, n: nat) returns (names: seq<seq<byte>>)
      requires Ok() && OpenOnDirectory(fd) && files[fd].position == 0 && n <= U32 && Listable(fs.Image(), n)
      modifies files
      ensures names == DirNames(fs.Image(), 0, n)
      ensures files[..] == old(files[..])[fd := old(files[fd]).(position := n)]
    {
      hide EntryName, DirNames, Listable;
      ghost var d := fs.Image();
      names := [];
      var i := 0;
      ListableUpTo(d, 0, n);
      while i < n
        invariant i <= n && fs.Image() == d && Listable(d, i) && names == DirNames(d, 0, i)
        invariant files[..] == old(files[..])[fd := old(files[fd]).(position := i)]
      {
        assert files[fd] == files[..][fd];
        ListableUpTo(d, i, n);
        DirNamesSnoc(d, 0, i);
        var name := ListName(fd);
        names := names + [name];
        i := i + 1;
      }
    }

    /** Open a directory by name, list it and close it. */
    method ListDirectory(name: seq<byte>, garbage: Dentry, n: nat) returns (names: seq<seq<byte>>)
      requires Ok() && name != MOUSE && name != [] && 0 !in name && n <= U32 && Listable(fs.Image(), n)
      requires var i := Lookup(fs.Image(), name); i < fs.count && fs.dir[i].kind == 1
      requires FirstClosed(files[..], FIRST_READABLE_FILE) < FILE_DESCRIPTOR_SIZE
      modifies files, fs`count, fs.dir, fs.inodes, fs.dataMap, fs.inodeMap
      ensures Ok() && fs.Image() == old(fs.Image()) && names == DirNames(fs.Image(), 0, n)
      ensures files[..] == old(files[..])[FirstClosed(old(files[..]), FIRST_READABLE_FILE) :=
        FileEntry(Directory, 0, 0, false, false)]
    {
      hide Lookup, NameOf, CreateFile, FirstClosed, DirNames, Listable, Opened;
      ghost var before := files[..];
      var fd := SysOpen(name, garbage);
      ghost var atStart := files[..];
      assert files[fd] == atStart[fd];
      names := ListNames(fd, n);
      ghost var read := files[..];
      assert read[fd].present && read[fd].driver == Directory;
      Overwrite(before, fd, atStart[fd], read[fd]);
      Overwrite(before, fd, read[fd], FileEntry(Directory, 0, 0, false, false));
      var closed := SysClose(fd);
    }

    // -------------------------------------------------------------- whole uses of a file

    /** The descriptor is open on a regular file. */
    ghost predicate OpenOn(fd: nat, k: nat)
      requires files.Length == FILE_DESCRIPTOR_SIZE
      reads files
    {
      FIRST_READABLE_FILE <= fd < FILE_DESCRIPTOR_SIZE && files[fd].present && files[fd].driver == Regular && files[fd].inode == k
    }

    /** One chunk more at the end of the file, or a failed call. */
    method AppendChunk(fd: nat, chunk: seq<byte>, ghost k: nat, ghost c: nat) returns (ok: bool)
      requires Ok() && OpenOn(fd, k) && Appendable(fs.Image(), k, c) && |chunk| == c
      requires files[fd].position == fs.Image().inodes[k].length
      modifies files, fs.inodes, fs.dataMap, fs.blocks
      ensures Ok() && k < |fs.Image().inodes| && Appendable(fs.Image(), k, c)
      ensures Tried(old(fs.Image()), k, c, chunk, fs.Image(), ok)
      ensures files[..] == old(files[..])[fd :=
        old(files[fd]).(position := fs.Image().inodes[k].length - if ok then 0 else 1)]
    {
      hide Appendable, Addressable, UndoInRange, WriteData, Offset;
      TryStep(fs.Image(), k, c, chunk);
      OffsetSmall(files[fd].position);
      var t := SysWrite(fd, chunk);
      ok := t.count >= 0;
    }

    /** Write chunk after chunk through a descriptor that stands at the end of its
        file, until one fails.  The position stays at the end of the file; a
        failure takes it back by one. */
    method AppendChunks(fd: nat, chunks: seq<seq<byte>>, ghost k: nat, ghost c: nat) returns (done: nat)
      requires Ok() && OpenOn(fd, k) && Appendable(fs.Image(), k, c) && forall i :: 0 <= i < |chunks| ==> |chunks[i]| == c
      requires files[fd].position == fs.Image().inodes[k].length
      modifies files, fs.inodes, fs.dataMap, fs.blocks
      ensures Ok() && Appendable(fs.Image(), k, c)
      ensures Run(fs.Image(), done) == AppendAll(old(fs.Image()), k, c, chunks)
      ensures files[..] == old(files[..])[fd := old(files[fd]).(position :=
        fs.Image().inodes[k].length - if done < |chunks| then 1 else 0)]
    {
      hide Appendable, Appended, AppendAll, Rest, Tried;
      ghost var d := fs.Image();
      done := 0;
      RestStart(d, k, c, chunks);
      while done < |chunks|
        invariant done <= |chunks| && Ok() && k < |fs.Image().inodes| && Appendable(fs.Image(), k, c)
        invariant files[..] == old(files[..])[fd := old(files[fd]).(position := fs.Image().inodes[k].length)]
        invariant Rest(fs.Image(), k, c, chunks, done) == AppendAll(d, k, c, chunks)
      {
        assert files[fd] == files[..][fd];
        ghost var was := fs.Image();
        var ok := AppendChunk(fd, chunks[done], k, c);
        RestStep(was, k, c, chunks, done, fs.Image(), ok);
        if !ok {
          return;
        }
        done := done + 1;
      }
      RestStart(fs.Image(), k, c, chunks);
    }

    /** One chunk from the file position on. */
    method ReadChunk(fd: nat, e: nat, ghost k: nat) returns (data: seq<byte>)
      requires Ok() && OpenOn(fd, k) && Valid(fs.Image()) && InUse(fs.Image(), k)
      requires files[fd].position >= 0 && ReadableAt(fs.Image(), k, files[fd].position, e)
      requires ReadInRange(fs.Image(), k, files[fd].position, e)
      modifies files
      ensures data == ReadBytes(fs.Image(), k, old(files[fd].position), e)
      ensures |data| == ReadCount(fs.Image(), k, old(files[fd].position), e)
      ensures files[..] == old(files[..])[fd := old(files[fd]).(position := old(files[fd].position) + |data|)]
    {
      ReadInBounds(fs.Image(), k, files[fd].position, e);
      hide Valid, InUse, ReadableAt, ReadInRange, ReadCount, ReadBytes, Offset;
      OffsetSmall(files[fd].position);
      var buf := new byte[e];
      var t := SysRead(fd, buf, e);
      data := buf[..t.count];
    }

    /** n reads of size e from the file position on. */
    method ReadAll(fd: nat, e: nat, n: nat, ghost k: nat) returns (data: seq<byte>)
      requires Ok() && OpenOn(fd, k) && Valid(fs.Image()) && InUse(fs.Image(), k)
      requires files[fd].position >= 0 && ReadableAt(fs.Image(), k, files[fd].position, e)
      modifies files
      ensures data == ReadChunks(fs.Image(), k, old(files[fd].position), e, n)
      ensures files[..] == old(files[..])[fd := old(files[fd]).(position := old(files[fd].position) + |data|)]
    {
      hide Valid, InUse, ReadableAt, ReadInRange, ReadCount, ReadBytes, ReadChunks;
      ghost var d, start := fs.Image(), files[fd].position;
      NoChunks(d, k, start, e);
      data := [];
      var i := 0;
      while i < n
        invariant i <= n && fs.Image() == d && k < |d.inodes| && data == ReadChunks(d, k, start, e, i)
        invariant files[..] == old(files[..])[fd := old(files[fd]).(position := start + |data|)]
      {
        assert files[fd] == files[..][fd];
        ReadChunksSnoc(d, k, start, e, i);
        var chunk := ReadChunk(fd, e, k);
        data := data + chunk;
        i := i + 1;
      }
    }

    /** Opening a name that is not there creates the file. */
    method OpenNew(name: seq<byte>, garbage: Dentry) returns (fd: nat)
      requires Ok() && name != MOUSE && Creatable(fs.Image(), name)
      requires FirstClosed(files[..], FIRST_READABLE_FILE) < FILE_DESCRIPTOR_SIZE
      modifies files, fs`count, fs.dir, fs.inodes, fs.dataMap, fs.inodeMap
      ensures Ok() && fs.Image() == CreateFile(old(fs.Image()), name).disk
      ensures fd == FirstClosed(old(files[..]), FIRST_READABLE_FILE)
      ensures files[..] == old(files[..])[fd :=
        old(files[fd]).(inode := NewInode(old(fs.Image()), name), position := 0, present := true, driver := Regular)]
    {
      NewFileEntry(fs.Image(), name);
      hide Valid, CreateFile, NewInode, Creatable, Lookup, NameOf, FirstClosed;
      fd := SysOpen(name, garbage);
    }

    /** Create a file, write chunks to it and close it. */
    method WriteFile(name: seq<byte>, garbage: Dentry, chunks: seq<seq<byte>>, ghost c: nat) returns (done: nat)
      requires Ok() && name != MOUSE && Creatable(fs.Image(), name)
      requires FirstClosed(files[..], FIRST_READABLE_FILE) < FILE_DESCRIPTOR_SIZE
      requires ChunkSize(c) && forall i :: 0 <= i < |chunks| ==> |chunks[i]| == c
      modifies files, fs`count, fs.dir, fs.inodes, fs.dataMap, fs.inodeMap, fs.blocks
      ensures Ok() && Run(fs.Image(), done) == WriteNew(old(fs.Image()), name, c, chunks)
      ensures files[..] == UsedOnce(old(files[..]))
    {
      ghost var d := fs.Image();
      NewFileEntry(d, name);
      NewFileAppendable(d, name, c);
      hide Valid, ChunkSize, Appendable, Appended, AppendAll, CreateFile, NewInode, Creatable, Lookup, NameOf, Content, InUse,
           FirstClosed;
      ghost var before := files[..];
      var fd := OpenNew(name, garbage);
      ghost var atStart := files[..];
      assert files[fd] == atStart[fd];
      done := AppendChunks(fd, chunks, NewInode(d, name), c);
      ghost var written := files[..];
      assert written[fd].present && written[fd].driver == Regular;
      Overwrite(before, fd, atStart[fd], written[fd]);
      Overwrite(before, fd, written[fd], FileEntry(Regular, 0, 0, false, false));
      var closed := SysClose(fd);
    }

    /** Open a file, read it from the start and close it. */
    method ReadFile(name: seq<byte>, garbage: Dentry, e: nat, n: nat, ghost k: nat) returns (data: seq<byte>)
      requires Ok() && name != MOUSE && name != [] && 0 !in name && IsFile(fs.Image(), name, k) && InUse(fs.Image(), k)
      requires Valid(fs.Image()) && ReadableAt(fs.Image(), k, 0, e)
      requires FirstClosed(files[..], FIRST_READABLE_FILE) < FILE_DESCRIPTOR_SIZE
      modifies files, fs`count, fs.dir, fs.inodes, fs.dataMap, fs.inodeMap
      ensures Ok() && fs.Image() == old(fs.Image()) && data == ReadChunks(fs.Image(), k, 0, e, n)
      ensures files[..] == UsedOnce(old(files[..]))
    {
      hide Valid, InUse, ReadableAt, ReadChunks, CreateFile, Lookup, NameOf, FirstClosed;
      var fd := SysOpen(name, garbage);
      data := ReadAll(fd, e, n, k);
      var closed := SysClose(fd);
    }

    /** Create a file, write chunks to it, close it, open it again and read it
        with another chunk size: what was written comes back. */
    method WriteThenRead(name: seq<byte>, garbage: Dentry, chunks: seq<seq<byte>>, ghost c: nat, e: nat, n: nat)
        returns (done: nat, data: seq<byte>)
      requires Ok() && name != MOUSE && Creatable(fs.Image(), name)
      requires FirstClosed(files[..], FIRST_READABLE_FILE) < FILE_DESCRIPTOR_SIZE
      requires ChunkSize(c) && ChunkSize(e) && forall i :: 0 <= i < |chunks| ==> |chunks[i]| == c
      requires Covered(e, n) >= c * |chunks|
      modifies files, fs`count, fs.dir, fs.inodes, fs.dataMap, fs.inodeMap, fs.blocks
      ensures Ok() && Valid(fs.Image()) && done <= |chunks| && data == Flatten(chunks[..done])
      ensures done < |chunks| ==> NoFreeBlock(fs.Image())
      ensures forall l :: InUse(old(fs.Image()), l) ==>
        InUse(fs.Image(), l) && Content(fs.Image(), l) == Content(old(fs.Image()), l)
    {
      ghost var d := fs.Image();
      ghost var k := NewInode(d, name);
      hide Valid, InUse, CreateFile, NewInode, Creatable, WriteNew, ReadableAt, ReadChunks, IsFile,
           Covered, ChunkSize, Flatten, FirstClosed;
      done := WriteFile(name, garbage, chunks, c);
      WrittenFile(d, name, c, chunks, e, n, Run(fs.Image(), done));
      FirstClosedAgain(old(files[..]), FileEntry(Regular, 0, 0, false, false), FIRST_READABLE_FILE);
      data := ReadFile(name, garbage, e, n, k);
    }
  }

  /** The name is in the directory, for a regular file with inode k. */
  ghost predicate IsFile(d: Disk, name: seq<byte>, k: nat)
    requires Shape(d)
  {
    var i := Lookup(d, name);
    i < d.count && d.dir[i].inode == k && d.dir[i].kind == FS_TYPE_FILE
  }

  lemma NewFileEntry(d: Disk, name: seq<byte>)
    requires Creatable(d, name)
    ensures var r := CreateFile(d, name);
            && Lookup(d, name) == d.count && r.value == d.count && r.disk.count == d.count + 1
            && r.disk.dir[d.count].inode == NewInode(d, name) && r.disk.dir[d.count].kind == FS_TYPE_FILE
            && NewInode(d, name) < |r.disk.inodes| && r.disk.inodes[NewInode(d, name)].length == 0
            && name != [] && 0 !in name && |name| < MAX_FILENAME_LENGTH
  {
  }

  lemma {:induction false} FlattenLength(chunks: seq<seq<byte>>, c: nat)
    requires forall i :: 0 <= i < |chunks| ==> |chunks[i]| == c
    ensures |Flatten(chunks)| == c * |chunks|
  {
    if chunks != [] {
      FlattenLength(chunks[1..], c);
      assert |Flatten(chunks)| == c + c * (|chunks| - 1) == c * |chunks|;
    }
  }

  lemma WrittenFile(d: Disk, name: seq<byte>, c: nat, chunks: seq<seq<byte>>, e: nat, n: nat, r: Run)
    requires Creatable(d, name) && ChunkSize(c) && ChunkSize(e) && forall i :: 0 <= i < |chunks| ==> |chunks[i]| == c
    requires Covered(e, n) >= c * |chunks|
    requires r == WriteNew(d, name, c, chunks)
    ensures var k := NewInode(d, name);
            && name != [] && 0 !in name && Valid(r.disk) && InUse(r.disk, k) && IsFile(r.disk, name, k)
            && ReadableAt(r.disk, k, 0, e)
            && r.done <= |chunks| && ReadChunks(r.disk, k, 0, e, n) == Flatten(chunks[..r.done])
            && (r.done < |chunks| ==> NoFreeBlock(r.disk))
            && forall l :: InUse(d, l) ==> InUse(r.disk, l) && Content(r.disk, l) == Content(d, l)
  {
    OthersKept(d, name, c, chunks);
    NewFileAppendable(d, name, c);
    NewFileEntry(d, name);
    RoundTrip(d, name, c, chunks, e, n);
    FlattenLength(chunks[..r.done], c);
    MulMono(c, r.done, |chunks|);
    var k := NewInode(d, name);
    assert |Content(r.disk, k)| == r.disk.inodes[k].length;
  }

  // ---------------------------------------------------------------- listing a directory

  /** What n calls of dir_read from position `pos` return. */
  function DirNames(d: Disk, pos: nat, n: nat): (names: seq<seq<byte>>)
    requires Listable(d, pos + n)
    ensures |names| == n
    decreases n
  {
    if n == 0 then [] else [EntryName(d, pos)] + DirNames(d, pos + 1, n - 1)
  }

  /** Positions below `end` are entries, or past those in use. */
  predicate Listable(d: Disk, end: nat) {
    Shape(d) && (d.count == 0 ==> end <= NUM_DENTRIES)
  }

  lemma ListableUpTo(d: Disk, pos: nat, n: nat)
    requires pos <= n && Listable(d, n)
    ensures Listable(d, pos) && (pos < n ==> Listable(d, pos + 1))
    ensures pos == 0 ==> DirNames(d, pos, 0) == []
  {
  }

  lemma {:induction false} DirNamesAt(d: Disk, pos: nat, n: nat, i: nat)
    requires Listable(d, pos + n) && i < n
    ensures DirNames(d, pos, n)[i] == EntryName(d, pos + i)
    decreases n
  {
    hide EntryName;
    if i > 0 { DirNamesAt(d, pos + 1, n - 1, i - 1); }
  }

  lemma {:induction false} DirNamesSnoc(d: Disk, pos: nat, n: nat)
    requires Listable(d, pos + n + 1)
    ensures DirNames(d, pos, n + 1) == DirNames(d, pos, n) + [EntryName(d, pos + n)]
    decreases n
  {
    hide EntryName;
    if n > 0 {
      DirNamesSnoc(d, pos + 1, n - 1);
      var first, rest, last := [EntryName(d, pos)], DirNames(d, pos + 1, n - 1), [EntryName(d, pos + n)];
      assert first + (rest + last) == (first + rest) + last;
    }
  }

  /** Reading a valid directory from the start returns every name once, in order.
      From then on the results are empty if and only if the directory is not, or
      the unused entries it reads then have no names. */
  lemma ListingIsComplete(d: Disk, n: nat)
    requires Valid(d) && Listable(d, n)
    ensures var names := DirNames(d, 0, n);
            && (forall i :: 0 <= i < n && i < d.count ==> names[i] == NameOf(d.dir[i].name) && names[i] != [])
            && (forall i, j :: 0 <= i < n && 0 <= j < n && i < d.count && names[i] == names[j] ==> i == j)
            && ((forall i :: d.count <= i < n ==> names[i] == []) <==>
                  0 < d.count || forall i :: 0 <= i < n ==> d.dir[i].name[0] == 0)
  {
    var names := DirNames(d, 0, n);
    forall i | 0 <= i < n ensures names[i] == EntryName(d, i) {
      DirNamesAt(d, 0, n, i);
    }
    if d.count == 0 {
      forall i | 0 <= i < n ensures names[i] == [] <==> d.dir[i].name[0] == 0 {
        assert names[i] == NameOf(d.dir[i].name);
        NamedFirstByte(d.dir[i].name);
      }
    }
  }

  /** Every name that can be found in a directory in use is listed, and no
      other. */
  lemma ListedIffFound(d: Disk, n: nat, name: seq<byte>)
    requires Valid(d) && 0 < d.count <= n && name != []
    ensures name in DirNames(d, 0, n) <==> Lookup(d, name) < d.count
  {
    hide NamesUnique, InodesUnique, BlocksUnique, ListOk, NameOf;
    var k := Lookup(d, name);
    if k < d.count { DirNamesAt(d, 0, n, k); }
    if name in DirNames(d, 0, n) {
      var i :| 0 <= i < n && DirNames(d, 0, n)[i] == name;
      DirNamesAt(d, 0, n, i);
    }
  }

  /** In an empty directory names can be listed that cannot be found. */
  lemma EmptyDirectoryLists(d: Disk, n: nat, name: seq<byte>)
    requires Shape(d) && d.count == 0 && n <= NUM_DENTRIES
    ensures name in DirNames(d, 0, n) <==> exists i :: 0 <= i < n && NameOf(d.dir[i].name) == name
    ensures !(Lookup(d, name) < d.count)
  {
    hide NameOf;
    var names := DirNames(d, 0, n);
    forall i | 0 <= i < n ensures names[i] == NameOf(d.dir[i].name) {
      DirNamesAt(d, 0, n, i);
    }
    if i :| 0 <= i < n && NameOf(d.dir[i].name) == name {
      assert names[i] == name;
    }
  }
}
