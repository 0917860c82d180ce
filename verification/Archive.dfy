/** Writing files to an archive on the scratch device and reading them back into another file system
    (fsutil_append and fsutil_extract in filesys/fsutil.c). */
module Archive {
  import opened Bytes
  import opened InodeIO
  import opened FsModel
  import opened FsOwnership
  import opened FsInvariant
  import opened FsRuns
  import opened FsTheorems
  import opened FsContent
  import opened FsStore
  import FsOutcomes
  import opened Options
  import opened Ustar
  import FileSystem

  /** A file to archive. */
  datatype Item = Item(name: seq<byte>, bytes: seq<byte>)

  /** The data sectors of a file, the last one filled up with zeros. */
  ghost function DataSectors(b: seq<byte>): (r: seq<Sector>)
    ensures |r| == SectorCount(|b|)
    decreases |b|
  {
    if |b| == 0 then []
    else if |b| <= 512 then [b + Zeros(512 - |b|)]
    else [b[..512]] + DataSectors(b[512..])
  }

  /** A file that append accepts. */
  ghost predicate Archivable(f: Item) {
    0 !in f.name && |Strip(f.name)| <= 99 && |f.bytes| <= 0x7FFF_FFFF
  }

  ghost function MemberSectors(f: Item): (r: seq<Sector>)
    requires Archivable(f)
    ensures |r| == 1 + SectorCount(|f.bytes|)
  {
    [Whole(Strip(f.name), REGULAR, |f.bytes|)] + DataSectors(f.bytes)
  }

  ghost function ArchiveSectors(files: seq<Item>): seq<Sector>
    requires forall f | f in files :: Archivable(f)
  {
    if files == [] then [] else MemberSectors(files[0]) + ArchiveSectors(files[1..])
  }

  // ---------------------------------------------------------------
  // fsutil_append
  // ---------------------------------------------------------------

  ghost predicate HasFile(fs: Fs, name: Name) { Lookup(fs.dir, name).Some? }

  ghost function SectorNamed(fs: Fs, name: Name): nat
    requires HasFile(fs, name)
  {
    fs.dir[Lookup(fs.dir, name).value].sector
  }

  /** The bytes of the file of that name. */
  ghost function FileOf(fs: Fs, name: Name): (bytes: seq<byte>)
    requires Inv(fs) && HasFile(fs, name)
    ensures |bytes| < 0x8000_0000
  {
    NamedPlaced(fs, name);
    Content(fs.disk, SectorNamed(fs, name))
  }

  lemma NamedPlaced(fs: Fs, name: Name)
    requires Inv(fs) && HasFile(fs, name)
    ensures var s := SectorNamed(fs, name);
            && s in Live(fs) && s in Kept(fs.dir) && Placed(fs.disk, s) && |fs.disk| <= 0x8000_0000
            && fs.disk[s].inode.length < 0x8000_0000
  {
    hide Inv, Live, Kept, Lookup;
    EntryLive(fs, Lookup(fs.dir, name).value);
    LiveArePlaced(fs, SectorNamed(fs, name));
  }

  lemma FileOfIs(fs: Fs, name: Name)
    requires Inv(fs) && HasFile(fs, name)
    ensures Placed(fs.disk, SectorNamed(fs, name)) && |fs.disk| <= 0x8000_0000
    ensures FileOf(fs, name) == Content(fs.disk, SectorNamed(fs, name))
  {
    hide Inv, Placed, Content, SectorNamed;
    NamedPlaced(fs, name);
  }

  /** Nothing but the table of open inodes may differ. */
  ghost predicate SameFiles(fs: Fs, fs': Fs) {
    Inv(fs') && Quiescent(fs') && fs' == fs.(opens := fs'.opens)
  }

  /** fs with the named file open as file id. */
  ghost predicate Opened(fs: Fs, fs': Fs, name: Name, id: nat) {
    && HasFile(fs, name) && Inv(fs') && Quiescent(fs')
    && fs' == fs.(opens := fs'.opens, files := fs.files[id := FsModel.File(SectorNamed(fs, name), false, 0)])
  }

  method OpenSource(name: Name, fs: FileSystem.FileSystem, id: nat) returns (isOpen: bool, size: nat)
    requires fs.Valid() && Inv(fs.State()) && Quiescent(fs.State()) && id !in fs.files
    modifies fs`opens, fs`held, fs`panicked, fs`files, fs.freeMap.bits
    ensures isOpen <==> HasFile(old(fs.State()), name)
    ensures isOpen ==> Opened(old(fs.State()), fs.State(), name, id) && size == |FileOf(old(fs.State()), name)|
  {
    hide Inv, Lookup, Placed, Content, Open;
    ghost var s0 := fs.State();
    OpenKeeps(s0, name, id, NoFaults());
    if HasFile(s0, name) {
      OpenEffect(s0, name, id);
      NamedPlaced(s0, name);
    }
    isOpen := fs.FilesysOpen(name, id, NoFaults());
    size := 0;
    if isOpen {
      size := fs.FileLength(id);
      FileOfIs(s0, name);
    }
  }

  lemma CloseSource(s0: Fs, s1: Fs, name: Name, id: nat, pos: nat)
    requires Inv(s0) && Quiescent(s0) && id !in s0.files && Opened(s0, s1, name, id)
    ensures SameFiles(s0, Close(Seek(s1, id, pos), id))
  {
    hide Inv, Lookup, Close, Kept;
    NamedPlaced(s0, name);
    SeekKeeps(s1, id, pos);
    CloseKeeps(Seek(s1, id, pos), id);
    assert Seek(s1, id, pos).files - {id} == s0.files;
    NotPanicked(s0);
    NotPanicked(Close(Seek(s1, id, pos), id));
  }

  lemma NotPanicked(fs: Fs)
    requires Inv(fs)
    ensures !fs.panicked
  {
  }

  class Appender {
    const dst: Device
    var sector: nat

    constructor (dst: Device)
      ensures this.dst == dst && sector == 0
    {
      this.dst, sector := dst, 0;
    }

    /** False stands for a panic: no such file, its name too long, or the device too small. On success
        the file follows what was there before, the two end sectors follow it, and the position is
        after the file, so that the next call overwrites them. The file system is as it was. */
    method Append(name: Name, fs: FileSystem.FileSystem, id: nat) returns (ok: bool)
      requires 0 !in name && fs.Valid() && Inv(fs.State()) && Quiescent(fs.State()) && id !in fs.files
      requires dst.sectors != fs.dev.sectors
      modifies this`sector, dst.sectors, fs`opens, fs`held, fs`panicked, fs`files, fs.freeMap.bits
      ensures ok <==> && HasFile(old(fs.State()), name) && |Strip(name)| <= 99
                      && old(sector) + 3 + SectorCount(|FileOf(old(fs.State()), name)|) <= dst.sectors.Length
      ensures ok ==>
                var f := Item(name, FileOf(old(fs.State()), name));
                && Archivable(f)
                && sector == old(sector) + 1 + SectorCount(|f.bytes|) && sector + 2 <= dst.sectors.Length
                && dst.sectors[..sector] == old(dst.sectors[..sector]) + MemberSectors(f)
                && dst.sectors[sector] == dst.sectors[sector + 1] == ZeroSector()
      ensures ok ==> fs.Valid() && SameFiles(old(fs.State()), fs.State())
    {
      hide Whole, Strip, DataSectors, Inv, FileOf, Opened, SameFiles, HasFile, SectorCount, Seek, Close, Placed;
      hide Content;
      hide FileSystem.FileSystem.Valid, MemberSectors, Quiescent, SectorNamed;
      ghost var s0 := fs.State();
      var isOpen, size := OpenSource(name, fs, id);
      if !isOpen {
        return false;
      }
      ghost var s1 := fs.State();
      OpenedContent(s0, s1, name, id);
      ok := WriteMember(name, fs, id, size, FileOf(s0, name));
      if !ok {
        return false;
      }
      SeekParts(s1, id, size, size);
      CloseSource(s0, s1, name, id, size);
      fs.FileClose(id);
    }

    /** The header, the copy loop and the end of the archive. */
    method WriteMember(name: Name, fs: FileSystem.FileSystem, id: nat, size: nat, ghost bytes: seq<byte>)
        returns (ok: bool)
      requires 0 !in name && fs.Valid() && Inv(fs.State()) && id in fs.files && fs.files[id].pos == 0
      requires Placed(fs.disk, fs.files[id].sector) && |fs.disk| <= 0x8000_0000
      requires bytes == Content(fs.disk, fs.files[id].sector) && size == |bytes| < 0x8000_0000
      requires dst.sectors != fs.dev.sectors
      modifies this`sector, dst.sectors, fs`files
      ensures ok <==> |Strip(name)| <= 99 && old(sector) + 3 + SectorCount(size) <= dst.sectors.Length
      ensures ok ==>
                var f := Item(name, bytes);
                && Archivable(f)
                && sector == old(sector) + 1 + SectorCount(size) && sector + 2 <= dst.sectors.Length
                && dst.sectors[..sector] == old(dst.sectors[..sector]) + MemberSectors(f)
                && dst.sectors[sector] == dst.sectors[sector + 1] == ZeroSector()
      ensures ok ==> fs.State() == Seek(old(fs.State()), id, size) && fs.Valid()
    {
      hide Whole, Strip, DataSectors, Inv, SectorCount, Seek, Placed, Content, FileSystem.FileSystem.Valid;
      hide MemberSectors;
      var buffer := new byte[512](_ => 0);
      var made := MakeHeader(name, REGULAR, size, buffer);
      if !made || sector >= dst.sectors.Length {
        return false;
      }
      ghost var before := dst.sectors[..sector];
      dst.BlockWrite(sector, buffer[..]);
      sector := sector + 1;
      ok := CopyData(fs, id, size, buffer, fs.State(), bytes, before + [buffer[..]]);
      if !ok || sector + 2 > dst.sectors.Length {
        return false;
      }
      ghost var done := dst.sectors[..sector];
      dst.BlockWrite(sector, ZeroSector());
      dst.BlockWrite(sector + 1, ZeroSector());
      assert dst.sectors[..sector] == done;
      JoinMember(before, Item(name, bytes));
    }

    /** file_read of the next chunk, and the rest of the buffer cleared. */
    method ReadBlock(fs: FileSystem.FileSystem, id: nat, chunk: nat, buffer: array<byte>, ghost bytes: seq<byte>)
      requires fs.Valid() && Inv(fs.State()) && id in fs.files && buffer.Length == 512 && chunk <= 512
      requires Placed(fs.disk, fs.files[id].sector) && bytes == Content(fs.disk, fs.files[id].sector)
      requires fs.files[id].pos + chunk <= |bytes|
      modifies fs`files, buffer
      ensures fs.State() == Seek(old(fs.State()), id, old(fs.files[id].pos) + chunk)
      ensures buffer[..] == Padded(bytes, old(fs.files[id].pos), chunk)
    {
      hide Inv, Patch, Stretch, Placed, Content, TransferCount, FileSystem.FileSystem.Valid;
      ghost var pos, was := fs.files[id].pos, buffer[..];
      ChunkThere(bytes, pos, chunk);
      var n := fs.FileRead(id, buffer, chunk, true);
      PutBytes(buffer, chunk, seq(512 - chunk, _ => 0));
      FilledBlock(was, bytes, pos, chunk);
    }

    /** One round of the copy loop. */
    method CopyBlock(fs: FileSystem.FileSystem, id: nat, chunk: nat, buffer: array<byte>, ghost bytes: seq<byte>)
      requires fs.Valid() && Inv(fs.State()) && id in fs.files && buffer.Length == 512 && chunk <= 512
      requires Placed(fs.disk, fs.files[id].sector) && bytes == Content(fs.disk, fs.files[id].sector)
      requires fs.files[id].pos + chunk <= |bytes| && dst.sectors != fs.dev.sectors && sector < dst.sectors.Length
      modifies this`sector, dst.sectors, fs`files, buffer
      ensures fs.Valid() && fs.State() == Seek(old(fs.State()), id, old(fs.files[id].pos) + chunk)
      ensures sector == old(sector) + 1
      ensures dst.sectors[..sector] == old(dst.sectors[..sector])
              + [Padded(bytes, old(fs.files[id].pos), chunk)]
    {
      hide Inv, Placed, Content, Seek, FileSystem.FileSystem.Valid;
      ReadBlock(fs, id, chunk, buffer, bytes);
      dst.BlockWrite(sector, buffer[..]);
      sector := sector + 1;
    }

    /** The copy loop. */
    method CopyData(fs: FileSystem.FileSystem, id: nat, size0: nat, buffer: array<byte>, ghost s1: Fs,
                    ghost bytes: seq<byte>, ghost done: seq<Sector>) returns (ok: bool)
      requires Inv(s1) && id in s1.files && s1.files[id].pos == 0 && fs.State() == s1 && fs.Valid()
      requires Placed(s1.disk, s1.files[id].sector) && |s1.disk| <= 0x8000_0000
      requires bytes == Content(s1.disk, s1.files[id].sector)
      requires size0 == |bytes| && buffer.Length == 512 && dst.sectors != fs.dev.sectors
      requires sector <= dst.sectors.Length && dst.sectors[..sector] == done
      modifies this`sector, dst.sectors, fs`files, buffer
      ensures ok <==> old(sector) + SectorCount(size0) <= dst.sectors.Length
      ensures ok ==> sector == old(sector) + SectorCount(size0) && dst.sectors[..sector] == done + DataSectors(bytes)
      ensures ok ==> fs.State() == Seek(s1, id, size0) && fs.Valid()
    {
      hide DataSectors, Inv, Placed, Content, FileSystem.FileSystem.Valid, Seek, SectorCount, Padded;
      var size: nat, pos: nat := size0, 0;
      SeekParts(s1, id, 0, 0);
      ghost var out := [];
      assert bytes[0..] == bytes && done + [] == done;
      while size > 0
        invariant pos + size == size0 && sector == old(sector) + |out| <= dst.sectors.Length
        invariant |out| + SectorCount(size) == SectorCount(size0)
        invariant dst.sectors[..sector] == done + out && out + DataSectors(bytes[pos..]) == DataSectors(bytes)
        invariant fs.State() == Seek(s1, id, pos) && fs.Valid()
      {
        var chunk := if size > 512 then 512 else size;
        CountStep(size, chunk);
        if sector >= dst.sectors.Length {
          return false;
        }
        SeekKeeps(s1, id, pos);
        SeekParts(s1, id, pos, pos + chunk);
        CopyBlock(fs, id, chunk, buffer, bytes);
        ghost var block := Padded(bytes, pos, chunk);
        FirstSector(bytes, pos, chunk);
        JoinSectors(out, block, DataSectors(bytes[pos + chunk..]));
        assert done + (out + [block]) == (done + out) + [block];
        out := out + [block];
        pos, size := pos + chunk, size - chunk;
      }
      NoSectors(bytes[pos..]);
      CountStep(0, 0);
      return true;
    }
  }

  lemma SeekParts(fs: Fs, id: nat, pos: nat, next: nat)
    requires id in fs.files
    ensures var fs' := Seek(fs, id, pos);
            && id in fs'.files && fs'.files[id] == fs.files[id].(pos := pos) && fs'.disk == fs.disk
            && Seek(fs', id, next) == Seek(fs, id, next)
    ensures fs.files[id].pos == pos ==> Seek(fs, id, pos) == fs
  {
  }

  lemma CountStep(size: nat, chunk: nat)
    requires chunk == if size > 512 then 512 else size
    ensures SectorCount(size) == (if size > 0 then 1 else 0) + SectorCount(size - chunk)
    ensures SectorCount(0) == 0
  {
  }

  lemma JoinSectors(a: seq<Sector>, b: Sector, c: seq<Sector>)
    ensures a + ([b] + c) == (a + [b]) + c
  {
  }

  lemma JoinMember(before: seq<Sector>, f: Item)
    requires Archivable(f)
    ensures before + [Whole(Strip(f.name), REGULAR, |f.bytes|)] + DataSectors(f.bytes) == before + MemberSectors(f)
  {
    hide Whole, Strip, DataSectors;
  }

  lemma OpenedContent(s0: Fs, s1: Fs, name: Name, id: nat)
    requires Inv(s0) && Opened(s0, s1, name, id)
    ensures HasFile(s0, name) && id in s1.files && Inv(s1) && Placed(s1.disk, s1.files[id].sector)
            && |s1.disk| <= 0x8000_0000
    ensures s1.files[id].pos == 0 && Content(s1.disk, s1.files[id].sector) == FileOf(s0, name)
  {
    hide Inv, Placed, Content, Lookup;
    NamedPlaced(s0, name);
  }

  lemma ChunkThere(bytes: seq<byte>, pos: nat, chunk: nat)
    requires pos + chunk <= |bytes|
    ensures TransferCount(chunk, pos, |bytes|) == chunk
    ensures Stretch(bytes, pos, chunk) == bytes[pos..pos + chunk]
  {
  }

  lemma FilledBlock(was: seq<byte>, bytes: seq<byte>, pos: nat, chunk: nat)
    requires |was| == 512 && chunk <= 512 && pos + chunk <= |bytes|
    ensures Patch(Patch(was, 0, bytes[pos..pos + chunk]), chunk, seq(512 - chunk, _ => 0))
         == Padded(bytes, pos, chunk)
  {
  }

  /** A chunk of a file, filled up with zeros. */
  ghost function Padded(bytes: seq<byte>, pos: nat, chunk: nat): Sector
    requires pos + chunk <= |bytes| && chunk <= 512
  {
    bytes[pos..pos + chunk] + seq(512 - chunk, _ => 0)
  }

  lemma FirstSector(bytes: seq<byte>, pos: nat, chunk: nat)
    requires pos < |bytes| && chunk == (if |bytes| - pos > 512 then 512 else |bytes| - pos)
    ensures DataSectors(bytes[pos..]) == [Padded(bytes, pos, chunk)] + DataSectors(bytes[pos + chunk..])
  {
    var b := bytes[pos..];
    assert b[..chunk] == bytes[pos..pos + chunk] && b[chunk..] == bytes[pos + chunk..];
    if |b| <= 512 {
      assert b + Zeros(512 - |b|) == Padded(bytes, pos, chunk);
    } else {
      assert b[..512] == Padded(bytes, pos, chunk);
    }
  }

  lemma NoSectors(b: seq<byte>)
    requires |b| == 0
    ensures DataSectors(b) == []
  {
  }

  // ---------------------------------------------------------------
  // fsutil_extract
  // ---------------------------------------------------------------

  /** The size bytes that start at sector at. */
  ghost function ReadBytes(d: seq<Sector>, at: nat, size: nat): (r: seq<byte>)
    requires at + SectorCount(size) <= |d|
    ensures |r| == size
    decreases size
  {
    if size == 0 then []
    else if size <= 512 then d[at][..size]
    else d[at] + ReadBytes(d, at + 1, size - 512)
  }

  /** Extraction from sector at on into file system fs; None is a panic. */
  ghost function ExtractInto(d: seq<Sector>, at: nat, fs: Fs, id: nat): Option<Fs>
    decreases |d| - at
  {
    if at >= |d| then None
    else
      match Parse(d[at])
      case Bad(_) => None
      case EndOfArchive => Some(fs)
      case Member(name, kind, size) =>
        if kind == DIRECTORY then ExtractInto(d, at + 1, fs, id)
        else if at + 1 + SectorCount(size) > |d| then None
        else
          match PutFile(fs, id, name, ReadBytes(d, at + 1, size))
          case None => None
          case Some(fs1) => ExtractInto(d, at + 1 + SectorCount(size), fs1, id)
  }

  lemma ReadStep(d: seq<Sector>, at: nat, size: nat)
    requires size > 0 && at + SectorCount(size) <= |d|
    ensures var n := if size > 512 then 512 else size;
            && at + 1 + SectorCount(size - n) <= |d|
            && ReadBytes(d, at, size)[..n] == d[at][..n]
            && ReadBytes(d, at, size)[n..] == ReadBytes(d, at + 1, size - n)
  {
    if size > 512 { assert d[at][..512] == d[at]; }
  }

  lemma WriteAllStep(fs: Fs, id: nat, bytes: seq<byte>)
    requires id in fs.files
    ensures |bytes| == 0 ==> WriteAll(fs, id, bytes) == Some(fs)
    ensures |bytes| > 0 ==>
              var n := if |bytes| > 512 then 512 else |bytes|;
              WriteAll(fs, id, bytes) ==
                if WriteCount(fs, id, bytes[..n], n) != n then None
                else WriteAll(Write(fs, id, bytes[..n], n), id, bytes[n..])
  {
    hide WriteCount, Write;
  }

  class Extractor {
    const src: Device

    constructor (src: Device)
      ensures this.src == src
    {
      this.src := src;
    }

    /** The copy loop: each block read from the scratch device is written to the file, and a short
        write is a panic. */
    method CopyOut(at: nat, size0: nat, fs: FileSystem.FileSystem, id: nat) returns (ok: bool)
      requires at + SectorCount(size0) <= src.sectors.Length && src.sectors != fs.dev.sectors
      requires fs.Valid() && Inv(fs.State()) && id in fs.files
      modifies fs`files, fs`disk, fs.dev.sectors
      ensures WriteAll(old(fs.State()), id, ReadBytes(src.sectors[..], at, size0)) ==
              if ok then Some(fs.State()) else None
      ensures ok ==> fs.Valid() && Inv(fs.State())
      ensures ok ==> id in fs.files && fs.held == old(fs.held) && fs.files - {id} == old(fs.files - {id})
    {
      hide Inv, ReadBytes, WriteAll, WriteCount, Write, FileSystem.FileSystem.Valid, SectorCount;
      ghost var s0, d := fs.State(), src.sectors[..];
      var data := new byte[512](_ => 0);
      var size: nat, sector: nat := size0, at;
      while size > 0
        invariant size <= size0 && sector + SectorCount(size) <= |d| && src.sectors[..] == d
        invariant fs.Valid() && Inv(fs.State()) && id in fs.files
        invariant fs.held == s0.held && fs.files - {id} == s0.files - {id}
        invariant WriteAll(s0, id, ReadBytes(d, at, size0)) == WriteAll(fs.State(), id, ReadBytes(d, sector, size))
      {
        var chunk := if size > 512 then 512 else size;
        CountStep(size, chunk);
        ReadStep(d, sector, size);
        WriteAllStep(fs.State(), id, ReadBytes(d, sector, size));
        PatchWhole(data[..], d[sector]);
        src.BlockRead(sector, data, 0);
        WriteKeeps(fs.State(), id, data[..chunk], chunk);
        var n := fs.FileWrite(id, data, chunk, true);
        if n != chunk {
          return false;
        }
        sector, size := sector + 1, size - chunk;
      }
      WriteAllStep(fs.State(), id, ReadBytes(d, sector, 0));
      ok := true;
    }

    /** Create, open, copy and close. */
    method Put(at: nat, name: Name, size: nat, fs: FileSystem.FileSystem, id: nat) returns (ok: bool)
      requires at + SectorCount(size) <= src.sectors.Length && src.sectors != fs.dev.sectors && size < 0x8000_0000
      requires fs.Valid() && Inv(fs.State()) && Quiescent(fs.State()) && id !in fs.files
      requires fs.dev.sectors.Length == fs.freeMap.bits.Length
      modifies fs, fs.freeMap.bits, fs.dev.sectors, fs.dir
      ensures PutFile(old(fs.State()), id, name, ReadBytes(src.sectors[..], at, size)) ==
              if ok then Some(fs.State()) else None
      ensures ok ==> fs.Valid() && Inv(fs.State()) && Quiescent(fs.State()) && id !in fs.files
    {
      hide Inv, ReadBytes, WriteAll, FileSystem.FileSystem.Valid, SectorCount, Create, Open, Close, Lookup;
      hide KeepsCovered;
      SizesAgree(fs.State());
      CreateKeeps(fs.State(), name, size, NoFaults());
      ok := fs.FilesysCreate(name, size, NoFaults());
      if !ok {
        return false;
      }
      OpenKeeps(fs.State(), name, id, NoFaults());
      ok := fs.FilesysOpen(name, id, NoFaults());
      if !ok {
        return false;
      }
      ok := CopyOut(at, size, fs, id);
      if !ok {
        return false;
      }
      CloseKeeps(fs.State(), id);
      fs.FileClose(id);
    }

    /** fsutil_extract; false stands for a panic. The archive is erased after it has been read. */
    method Extract(fs: FileSystem.FileSystem, id: nat) returns (ok: bool)
      requires src.sectors != fs.dev.sectors && fs.dev.sectors.Length == fs.freeMap.bits.Length
      requires fs.Valid() && Inv(fs.State()) && Quiescent(fs.State()) && id !in fs.files
      modifies src.sectors, fs, fs.freeMap.bits, fs.dev.sectors, fs.dir
      ensures ExtractInto(old(src.sectors[..]), 0, old(fs.State()), id) == if ok then Some(fs.State()) else None
      ensures ok ==> fs.Valid() && Inv(fs.State()) && Quiescent(fs.State())
      ensures ok && src.sectors.Length >= 2 ==>
                src.sectors[..] == old(src.sectors[..])[0 := ZeroSector()][1 := ZeroSector()]
    {
      hide Inv, ExtractInto, Parse, PutFile, ReadBytes, FileSystem.FileSystem.Valid, Quiescent;
      var sector := 0;
      ghost var d, s0 := src.sectors[..], fs.State();
      while true
        invariant sector <= src.sectors.Length && src.sectors[..] == d
        invariant fs.Valid() && Inv(fs.State()) && Quiescent(fs.State()) && id !in fs.files
        invariant ExtractInto(d, 0, s0, id) == ExtractInto(d, sector, fs.State(), id)
        decreases src.sectors.Length - sector
      {
        ExtractStep(d, sector, fs.State(), id);
        if sector >= src.sectors.Length {
          return false;
        }
        var header := ParseHeader(src.sectors[sector]);
        match header {
          case Bad(_) => return false;
          case EndOfArchive => break;
          case Member(name, kind, size) =>
            MemberSize(src.sectors[sector]);
            sector := sector + 1;
            if kind != DIRECTORY {
              if sector + SectorCount(size) > src.sectors.Length {
                return false;
              }
              ok := Put(sector, name, size, fs, id);
              if !ok {
                return false;
              }
              sector := sector + SectorCount(size);
            }
        }
      }
      if src.sectors.Length >= 2 {
        src.BlockWrite(0, ZeroSector());
        src.BlockWrite(1, ZeroSector());
      }
      ok := true;
    }
  }

  lemma MemberSize(h: Sector)
    ensures Parse(h).Member? ==> Parse(h).size < 0x8000_0000
  {
    hide ParseOctal, Strip, Checksum, AllZeros;
  }

  lemma ExtractStep(d: seq<Sector>, at: nat, fs: Fs, id: nat)
    ensures ExtractInto(d, at, fs, id) ==
              if at >= |d| then None
              else
                match Parse(d[at])
                case Bad(_) => None
                case EndOfArchive => Some(fs)
                case Member(name, kind, size) =>
                  if kind == DIRECTORY then ExtractInto(d, at + 1, fs, id)
                  else if at + 1 + SectorCount(size) > |d| then None
                  else
                    match PutFile(fs, id, name, ReadBytes(d, at + 1, size))
                    case None => None
                    case Some(fs1) => ExtractInto(d, at + 1 + SectorCount(size), fs1, id)
  {
    hide Parse, ReadBytes, PutFile;
  }

  // ---------------------------------------------------------------
  // Extracting what was appended
  // ---------------------------------------------------------------

  lemma {:induction false} DataReadsBack(d: seq<Sector>, at: nat, b: seq<byte>)
    requires at + SectorCount(|b|) <= |d| && d[at..at + SectorCount(|b|)] == DataSectors(b)
    ensures ReadBytes(d, at, |b|) == b
    decreases |b|
  {
    var n := SectorCount(|b|);
    if |b| > 0 {
      assert d[at] == d[at..at + n][0];
      if |b| > 512 {
        assert d[at + 1..at + n] == d[at..at + n][1..] == DataSectors(b[512..]);
        DataReadsBack(d, at + 1, b[512..]);
        assert b == b[..512] + b[512..];
      } else {
        assert (b + Zeros(512 - |b|))[..|b|] == b;
      }
    }
  }

  /** One archived file, whatever follows it. */
  lemma MemberReadsBack(d: seq<Sector>, at: nat, f: Item)
    requires Archivable(f) && at + |MemberSectors(f)| <= |d| && d[at..at + |MemberSectors(f)|] == MemberSectors(f)
    ensures Parse(d[at]) == Member(Strip(f.name), REGULAR, |f.bytes|)
    ensures ReadBytes(d, at + 1, |f.bytes|) == f.bytes
  {
    hide Parse, Whole, Strip, DataSectors, ReadBytes;
    HeadAndRest(d, at, Whole(Strip(f.name), REGULAR, |f.bytes|), DataSectors(f.bytes));
    HeaderRoundTrip(f.name, REGULAR, |f.bytes|);
    DataReadsBack(d, at + 1, f.bytes);
  }

  lemma HeadAndRest(d: seq<Sector>, at: nat, head: Sector, rest: seq<Sector>)
    requires at + 1 + |rest| <= |d| && d[at..at + 1 + |rest|] == [head] + rest
    ensures d[at] == head && d[at + 1..at + 1 + |rest|] == rest
  {
    var s := d[at..at + 1 + |rest|];
    assert d[at] == s[0] && d[at + 1..at + 1 + |rest|] == s[1..];
  }

  lemma ZeroSectorEnds()
    ensures Parse(ZeroSector()) == EndOfArchive
  {
  }

  /** What extraction makes of an archived file. */
  function AsStored(f: Item): Stored { Stored(Strip(f.name), f.bytes) }

  function StoredItems(items: seq<Item>): (r: seq<Stored>)
    ensures |r| == |items| && forall i | 0 <= i < |r| :: r[i] == AsStored(items[i])
  {
    seq(|items|, i requires 0 <= i < |items| => AsStored(items[i]))
  }

  lemma MemberThenRest(d: seq<Sector>, at: nat, items: seq<Item>)
    requires (forall f | f in items :: Archivable(f)) && items != []
    requires at + |ArchiveSectors(items)| < |d| && d[at..at + |ArchiveSectors(items)|] == ArchiveSectors(items)
    ensures Archivable(items[0]) && |items[0].bytes| < 0x8000_0000 && forall f | f in items[1..] :: Archivable(f)
    ensures var n, rest := |MemberSectors(items[0])|, ArchiveSectors(items[1..]);
            && |ArchiveSectors(items)| == n + |rest| && n == 1 + SectorCount(|items[0].bytes|)
            && d[at..at + n] == MemberSectors(items[0]) && d[at + n..at + n + |rest|] == rest
  {
    hide MemberSectors, SectorCount, Strip;
    var all, n := ArchiveSectors(items), |MemberSectors(items[0])|;
    assert all == MemberSectors(items[0]) + ArchiveSectors(items[1..]);
    SliceOfSlice(d, at, at + |all|, 0, n);
    SliceOfSlice(d, at, at + |all|, n, |all|);
  }

  /** Extracting an archive into a tidy file system: no panic exactly when all its files fit, and then
      the directory has them, under their stripped names and each with its bytes, after what it had. */
  lemma {:induction false} ExtractRestores(d: seq<Sector>, at: nat, items: seq<Item>, fs: Fs, id: nat, mark: nat,
                                           before: seq<Stored>)
    requires forall f | f in items :: Archivable(f)
    requires at + |ArchiveSectors(items)| < |d| && d[at..at + |ArchiveSectors(items)|] == ArchiveSectors(items)
    requires d[at + |ArchiveSectors(items)|] == ZeroSector()
    requires Tidy(fs, mark + TotalSectors(before)) && Holds(fs, before)
    requires AllFit(before, |fs.dir|, mark, |fs.freeMap|)
    ensures var all, r := before + StoredItems(items), ExtractInto(d, at, fs, id);
            && (r.Some? <==> AllFit(all, |fs.dir|, mark, |fs.freeMap|))
            && (r.Some? ==> Tidy(r.value, mark + TotalSectors(all)) && Holds(r.value, all))
    decreases |items|
  {
    hide Parse, ReadBytes, Strip, ExtractInto, MemberSectors, PutFile, Tidy, Holds, AllFit, FitsNext, SectorsOf;
    hide TotalSectors;
    hide SectorCount, Archivable, BytesToSectors;
    ExtractStep(d, at, fs, id);
    if items == [] {
      ZeroSectorEnds();
      assert before + StoredItems(items) == before;
    } else {
      var f, rest := items[0], items[1..];
      var n := |MemberSectors(f)|;
      MemberThenRest(d, at, items);
      MemberReadsBack(d, at, f);
      PutFileEffect(fs, mark + TotalSectors(before), id, before, AsStored(f));
      FitsOneMore(before, AsStored(f), |fs.dir|, mark, |fs.freeMap|);
      assert before + StoredItems(items) == (before + [AsStored(f)]) + StoredItems(rest);
      var r := PutFile(fs, id, Strip(f.name), f.bytes);
      if r.Some? {
        ExtractRestores(d, at + n, rest, r.value, id, mark, before + [AsStored(f)]);
      } else if AllFit(before + StoredItems(items), |fs.dir|, mark, |fs.freeMap|) {
        FitsFewer(before + [AsStored(f)], StoredItems(rest), |fs.dir|, mark, |fs.freeMap|);
      }
    }
  }

  /** Appending one file after others makes the archive of all of them. */
  lemma {:induction false} AppendExtends(files: seq<Item>, f: Item)
    requires Archivable(f) && forall g | g in files :: Archivable(g)
    ensures forall g | g in files + [f] :: Archivable(g)
    ensures ArchiveSectors(files + [f]) == ArchiveSectors(files) + MemberSectors(f)
    decreases |files|
  {
    hide MemberSectors, Archivable;
    if files == [] {
      assert [] + [f] == [f] && [f][1..] == [];
      assert MemberSectors(f) + [] == MemberSectors(f) && [] + MemberSectors(f) == MemberSectors(f);
    } else {
      var rest := files[1..];
      AppendExtends(rest, f);
      assert (files + [f])[1..] == rest + [f];
      assert MemberSectors(files[0]) + (ArchiveSectors(rest) + MemberSectors(f))
          == (MemberSectors(files[0]) + ArchiveSectors(rest)) + MemberSectors(f);
    }
  }

  // ---------------------------------------------------------------
  // From one file system to another
  // ---------------------------------------------------------------

  /** The files of those names. */
  ghost function Sources(fs: Fs, names: seq<Name>): (r: seq<Item>)
    requires Inv(fs) && forall n | n in names :: HasFile(fs, n)
    ensures |r| == |names| && forall i | 0 <= i < |r| :: r[i] == Item(names[i], FileOf(fs, names[i]))
  {
    seq(|names|, i requires 0 <= i < |names| => Item(names[i], FileOf(fs, names[i])))
  }

  /** What an archive of the files takes, with its end. */
  ghost function ArchiveSize(files: seq<Item>): nat {
    if files == [] then 2 else ArchiveSize(files[..|files| - 1]) + 1 + SectorCount(|files[|files| - 1].bytes|)
  }

  /** The named files can be appended one after the other on a device of that many sectors. */
  ghost predicate CanAppend(fs: Fs, names: seq<Name>, sectors: nat)
    requires Inv(fs)
  {
    && (forall n | n in names :: HasFile(fs, n) && |Strip(n)| <= 99)
    && ArchiveSize(Sources(fs, names)) <= sectors
  }

  lemma SizeOfMore(files: seq<Item>, f: Item)
    ensures ArchiveSize(files + [f]) == ArchiveSize(files) + 1 + SectorCount(|f.bytes|)
  {
    assert (files + [f])[..|files|] == files;
  }

  lemma {:induction false} SizeOfFewer(files: seq<Item>, i: nat)
    requires i <= |files|
    ensures ArchiveSize(files[..i]) <= ArchiveSize(files)
    decreases |files|
  {
    if i == |files| {
      assert files[..i] == files;
    } else {
      SizeOfFewer(files[..|files| - 1], i);
      assert files[..|files| - 1][..i] == files[..i];
    }
  }

  lemma SourcesMore(fs: Fs, names: seq<Name>, i: nat)
    requires Inv(fs) && i < |names| && (forall n | n in names[..i] :: HasFile(fs, n)) && HasFile(fs, names[i])
    ensures forall n | n in names[..i + 1] :: HasFile(fs, n)
    ensures Sources(fs, names[..i + 1]) == Sources(fs, names[..i]) + [Item(names[i], FileOf(fs, names[i]))]
  {
    hide Inv, HasFile, FileOf;
    assert names[..i + 1] == names[..i] + [names[i]];
  }

  lemma SourcesFewer(fs: Fs, names: seq<Name>, i: nat)
    requires Inv(fs) && i <= |names| && forall n | n in names :: HasFile(fs, n)
    ensures forall n | n in names[..i] :: n in names && HasFile(fs, n)
    ensures Sources(fs, names[..i]) == Sources(fs, names)[..i]
  {
    hide Inv, HasFile, FileOf;
    forall n | n in names[..i]
      ensures n in names
    {
    }
  }

  lemma SameSource(fs: Fs, fs': Fs, name: Name)
    requires Inv(fs) && SameFiles(fs, fs')
    ensures HasFile(fs', name) <==> HasFile(fs, name)
    ensures HasFile(fs, name) ==> FileOf(fs', name) == FileOf(fs, name)
  {
    hide Inv, Lookup, Content, Placed;
  }

  lemma SameFilesSelf(fs: Fs)
    requires Inv(fs) && Quiescent(fs)
    ensures SameFiles(fs, fs)
  {
    hide Inv;
  }

  lemma SameFilesAgain(fs: Fs, fs1: Fs, fs2: Fs)
    requires SameFiles(fs, fs1) && SameFiles(fs1, fs2)
    ensures SameFiles(fs, fs2)
  {
    hide Inv;
  }

  /** The archive of the first i files is on the device. */
  ghost predicate Archived(d: seq<Sector>, sector: nat, items: seq<Item>) {
    && (forall f | f in items :: Archivable(f))
    && sector == |ArchiveSectors(items)| == ArchiveSize(items) - 2 && sector <= |d|
       && d[..sector] == ArchiveSectors(items)
    && (items != [] ==> sector + 2 <= |d| && d[sector] == ZeroSector())
  }

  lemma ArchivedMore(d: seq<Sector>, sector: nat, items: seq<Item>, d': seq<Sector>, sector': nat, f: Item)
    requires Archived(d, sector, items) && Archivable(f) && |d'| == |d|
    requires sector' == sector + 1 + SectorCount(|f.bytes|) && sector' + 2 <= |d'|
    requires d'[..sector'] == d[..sector] + MemberSectors(f) && d'[sector'] == ZeroSector()
    ensures Archived(d', sector', items + [f])
  {
    hide Archivable, MemberSectors, SectorCount;
    AppendExtends(items, f);
    SizeOfMore(items, f);
  }

  lemma StartArchive(d: seq<Sector>, fs: Fs, names: seq<Name>)
    requires Inv(fs)
    ensures Archived(d, 0, Sources(fs, names[..0]))
  {
    hide Inv, HasFile, FileOf;
    assert Sources(fs, names[..0]) == [];
  }

  lemma ArchivedParts(d: seq<Sector>, sector: nat, items: seq<Item>)
    requires Archived(d, sector, items)
    ensures ArchiveSize(items) == sector + 2 && sector <= |d| && (items != [] ==> sector + 2 <= |d|)
  {
    hide MemberSectors, Archivable;
  }

  lemma SameFilesParts(fs: Fs, fs': Fs)
    requires SameFiles(fs, fs')
    ensures Inv(fs') && Quiescent(fs') && fs'.files == fs.files
  {
    hide Inv;
  }

  lemma AllAppended(fs: Fs, names: seq<Name>, d: seq<Sector>, sector: nat)
    requires Inv(fs) && names != [] && forall n | n in names :: HasFile(fs, n) && |Strip(n)| <= 99
    requires Archived(d, sector, Sources(fs, names))
    ensures CanAppend(fs, names, |d|)
  {
    hide Inv, HasFile, FileOf, Strip;
    ArchivedParts(d, sector, Sources(fs, names));
  }

  lemma CannotAppend(fs: Fs, names: seq<Name>, i: nat, sectors: nat)
    requires Inv(fs) && i < |names| && CanAppend(fs, names, sectors)
    ensures HasFile(fs, names[i]) && |Strip(names[i])| <= 99
    ensures forall n | n in names[..i] :: HasFile(fs, n)
    ensures ArchiveSize(Sources(fs, names[..i])) + 1 + SectorCount(|FileOf(fs, names[i])|) <= sectors
  {
    hide Inv, HasFile, FileOf, Strip, SectorCount;
    assert names[i] in names;
    SourcesFewer(fs, names, i);
    SourcesFewer(fs, names, i + 1);
    SourcesMore(fs, names, i);
    SizeOfMore(Sources(fs, names[..i]), Item(names[i], FileOf(fs, names[i])));
    SizeOfFewer(Sources(fs, names), i + 1);
  }

  /** fsutil_append for each name. */
  method AppendAll(names: seq<Name>, fs: FileSystem.FileSystem, to: Appender, id: nat) returns (ok: bool)
    requires (forall n | n in names :: 0 !in n) && to.sector == 0 && names != []
    requires fs.Valid() && Inv(fs.State()) && Quiescent(fs.State()) && id !in fs.files
             && to.dst.sectors != fs.dev.sectors
    modifies to`sector, to.dst.sectors, fs`opens, fs`held, fs`panicked, fs`files, fs.freeMap.bits
    ensures ok <==> CanAppend(old(fs.State()), names, to.dst.sectors.Length)
    ensures ok ==> Archived(to.dst.sectors[..], to.sector, Sources(old(fs.State()), names))
  {
    hide Inv, HasFile, FileOf, Strip, SectorCount, Archived, Archivable, MemberSectors, SameFiles, CanAppend, Quiescent;
    hide FileSystem.FileSystem.Valid;
    ghost var s0 := fs.State();
    var i := 0;
    StartArchive(to.dst.sectors[..], s0, names);
    SameFilesSelf(s0);
    while i < |names|
      invariant 0 <= i <= |names| && fs.Valid() && SameFiles(s0, fs.State())
      invariant forall n | n in names[..i] :: HasFile(s0, n) && |Strip(n)| <= 99
      invariant Archived(to.dst.sectors[..], to.sector, Sources(s0, names[..i]))
      modifies to`sector, to.dst.sectors, fs`opens, fs`held, fs`panicked, fs`files, fs.freeMap.bits
    {
      ghost var d, sector := to.dst.sectors[..], to.sector;
      SameSource(s0, fs.State(), names[i]);
      SameFilesParts(s0, fs.State());
      ArchivedParts(d, sector, Sources(s0, names[..i]));
      if CanAppend(s0, names, to.dst.sectors.Length) { CannotAppend(s0, names, i, to.dst.sectors.Length); }
      ghost var s1 := fs.State();
      ok := to.Append(names[i], fs, id);
      if !ok {
        return false;
      }
      SameFilesAgain(s0, s1, fs.State());
      SourcesMore(s0, names, i);
      ArchivedMore(d, sector, Sources(s0, names[..i]), to.dst.sectors[..], to.sector,
                   Item(names[i], FileOf(s0, names[i])));
      assert names[..i + 1] == names[..i] + [names[i]];
      i := i + 1;
    }
    assert names[..i] == names;
    AllAppended(s0, names, to.dst.sectors[..], to.sector);
    ok := true;
  }

  /** The files that a directory holds are found under their names. */
  lemma HoldsFiles(fs: Fs, files: seq<Stored>, i: nat)
    requires Inv(fs) && Holds(fs, files) && i < |files|
    ensures HasFile(fs, files[i].name) && FileOf(fs, files[i].name) == files[i].bytes
  {
    hide Inv, Lookup, Content, Placed;
    assert EntryHolds(fs, fs.dir[i], files[i]);
    FsOutcomes.NameFound(fs, i);
  }

  /** The archive round trip: the named files of one file system are appended to an archive one by
      one, and the archive is extracted into a freshly formatted file system of that many sectors.
      There is no panic if and only if the files are there, the archive fits on the scratch device,
      and the files fit into the new file system: at most 16, under different stripped names of 1 to
      14 characters, with a sector for each inode and for each 512 bytes after those of the free map
      and the root directory. Then the new file system has exactly these files, each with the bytes
      that it had in the old one. */
  method Transfer(names: seq<Name>, from: FileSystem.FileSystem, append: Appender, extract: Extractor,
                  to: FileSystem.FileSystem, size: nat, id: nat) returns (ok: bool)
    requires names != [] && forall n | n in names :: 0 !in n
    requires from.Valid() && Inv(from.State()) && Quiescent(from.State()) && id !in from.files && append.sector == 0
    requires 2 <= size <= 0x8000_0000 && Format(size) == (to.State(), true) && to.Valid()
    requires extract.src == append.dst && append.dst.sectors != from.dev.sectors && append.dst.sectors != to.dev.sectors
    requires from != to && from.freeMap.bits != to.freeMap.bits
    modifies append`sector, append.dst.sectors, from`opens, from`held, from`panicked, from`files, from.freeMap.bits
    modifies to, to.freeMap.bits, to.dev.sectors, to.dir
    ensures ok <==> CanAppend(old(from.State()), names, append.dst.sectors.Length)
                    && AllFit(StoredItems(Sources(old(from.State()), names)), 16,
                              3 + BytesToSectors(MapFileSize(size)), size)
    ensures ok ==> to.Valid() && Inv(to.State()) && Quiescent(to.State())
                   && Holds(to.State(), StoredItems(Sources(old(from.State()), names)))
    ensures ok ==> forall i | 0 <= i < |names| ::
              HasFile(old(from.State()), names[i]) && HasFile(to.State(), Strip(names[i]))
              && FileOf(to.State(), Strip(names[i])) == FileOf(old(from.State()), names[i])
  {
    hide Inv, HasFile, FileOf, Strip, AllFit, Holds, Quiescent, Format, BytesToSectors, Archived, ExtractInto, Tidy;
    ghost var s0, fs0 := from.State(), to.State();
    FreshlyFormatted(size);
    ok := AppendAll(names, from, append, id);
    if !ok {
      return false;
    }
    ghost var items, d := Sources(s0, names), append.dst.sectors[..];
    ArchiveRestores(d, append.sector, items, fs0, id, size);
    ok := extract.Extract(to, id);
    if ok {
      forall i | 0 <= i < |names|
        ensures HasFile(s0, names[i]) && HasFile(to.State(), Strip(names[i]))
        ensures FileOf(to.State(), Strip(names[i])) == FileOf(s0, names[i])
      {
        HoldsFiles(to.State(), StoredItems(items), i);
        assert names[i] in names;
      }
    }
  }

  lemma FreshlyFormatted(size: nat)
    requires 2 <= size <= 0x8000_0000 && Format(size).1
    ensures var fs := Format(size).0;
            && Inv(fs) && Quiescent(fs) && fs.files == map[] && |fs.disk| == |fs.freeMap|
  {
    hide Inv, Format;
    FormatIsTidy(size);
    SizesAgree(Format(size).0);
  }

  /** An archive of some files, extracted into a freshly formatted file system. */
  lemma ArchiveRestores(d: seq<Sector>, sector: nat, items: seq<Item>, fs: Fs, id: nat, size: nat)
    requires Archived(d, sector, items) && items != []
    requires 2 <= size <= 0x8000_0000 && Format(size) == (fs, true)
    ensures var all, r, mark := StoredItems(items), ExtractInto(d, 0, fs, id), 3 + BytesToSectors(MapFileSize(size));
            && (r.Some? <==> AllFit(all, 16, mark, size))
            && (r.Some? ==> Inv(r.value) && Holds(r.value, all))
  {
    hide *;
    var mark := 3 + BytesToSectors(MapFileSize(size));
    FormatIsTidy(size);
    EmptyFits(16, mark, size, fs);
    ArchivedOnDevice(d, sector, items);
    ExtractRestores(d, 0, items, fs, id, mark, []);
    assert [] + StoredItems(items) == StoredItems(items);
    if ExtractInto(d, 0, fs, id).Some? {
      EmptyFits(16, mark, size, ExtractInto(d, 0, fs, id).value);
    }
  }

  lemma ArchivedOnDevice(d: seq<Sector>, sector: nat, items: seq<Item>)
    requires Archived(d, sector, items) && items != []
    ensures forall f | f in items :: Archivable(f)
    ensures |ArchiveSectors(items)| < |d| && d[0..0 + |ArchiveSectors(items)|] == ArchiveSectors(items)
    ensures d[0 + |ArchiveSectors(items)|] == ZeroSector()
  {
    hide Archivable, MemberSectors;
  }

  lemma EmptyFits(slots: nat, mark: nat, size: nat, fs: Fs)
    ensures TotalSectors([]) == 0
    ensures mark <= size ==> AllFit([], slots, mark, size)
    ensures Tidy(fs, mark) ==> Inv(fs) && mark <= |fs.freeMap|
    ensures forall m: nat | Tidy(fs, m) :: Inv(fs)
  {
    hide Inv;
  }
}
